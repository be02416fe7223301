/** The memory bank's backing directory: a map from file name to record, the
    naming conventions that give a file its category, and the enumeration
    order in which the directory lists its entries. */
module Storage {
  import opened Text

  /** One file of the directory: its text and its creation time in seconds. */
  datatype Record = Record(content: string, ctime: real)

  type Directory = map<string, Record>

  /** What `open(path, 'w')` followed by `f.write(text)` leaves behind: the
      whole text; no file at all, because the open failed; or a file holding
      only the first `kept` characters, because the write or the close failed
      after the open had created it. */
  datatype WriteOutcome = Written | NotCreated | Truncated(kept: nat)

  /** Only `.txt` files are memory records; anything else in the directory is ignored. */
  predicate IsTxt(name: string) {
    EndsWith(name, ".txt")
  }

  /** Protected identity records. */
  predicate IsCore(name: string) {
    StartsWith(name, "core_")
  }

  predicate NotCore(name: string) {
    !IsCore(name)
  }

  /** Decayable, evictable records. */
  predicate IsRegular(name: string) {
    IsTxt(name) && !IsCore(name)
  }

  ghost predicate Distinct(l: seq<string>) {
    forall i, j :: 0 <= i < j < |l| ==> l[i] != l[j]
  }

  /** `l` lists every name of `names` exactly once, in some order: what the
      directory enumeration returns. */
  ghost predicate IsListing(l: seq<string>, names: set<string>) {
    Distinct(l) && forall x :: x in l <==> x in names
  }

  /** The elements of `l` that satisfy `keep`, in their original order. */
  function Filter(l: seq<string>, keep: string -> bool): (r: seq<string>)
    ensures |r| <= |l|
    ensures forall x :: x in r <==> x in l && keep(x)
    ensures Distinct(l) ==> Distinct(r)
  {
    if l == [] then []
    else (if keep(l[0]) then [l[0]] else []) + Filter(l[1..], keep)
  }

  /** Filtering keeps order: filtering a concatenation filters each part and
      concatenates the results. */
  lemma {:induction false} FilterAppend(a: seq<string>, b: seq<string>, keep: string -> bool)
    ensures Filter(a + b, keep) == Filter(a, keep) + Filter(b, keep)
  {
    if a == [] {
      assert a + b == b;
    } else {
      assert (a + b)[0] == a[0];
      assert (a + b)[1..] == a[1..] + b;
      FilterAppend(a[1..], b, keep);
    }
  }

  /** The `.txt` files of a listing. */
  function TxtFiles(listing: seq<string>): seq<string> {
    Filter(listing, IsTxt)
  }

  /** The `.txt` files whose name starts with `core_`. */
  function CoreFiles(listing: seq<string>): seq<string> {
    Filter(TxtFiles(listing), IsCore)
  }

  /** The `.txt` files whose name does not start with `core_`. */
  function RegularFiles(listing: seq<string>): seq<string> {
    Filter(TxtFiles(listing), NotCore)
  }

  /** The listing splits into core and regular files with nothing lost or shared. */
  lemma PartitionOfListing(listing: seq<string>)
    ensures forall x :: x in CoreFiles(listing) <==> x in listing && IsTxt(x) && IsCore(x)
    ensures forall x :: x in RegularFiles(listing) <==> x in listing && IsRegular(x)
    ensures |CoreFiles(listing)| + |RegularFiles(listing)| == |TxtFiles(listing)|
  {
    FilterSplit(TxtFiles(listing));
  }

  lemma {:induction false} FilterSplit(l: seq<string>)
    ensures |Filter(l, IsCore)| + |Filter(l, NotCore)| == |l|
  {
    if l != [] {
      FilterSplit(l[1..]);
    }
  }

  /** The number of `.txt` files in the directory. */
  ghost function TxtCount(d: Directory): nat {
    |set k | k in d && IsTxt(k)|
  }

  /** A duplicate-free sequence has as many elements as its set. */
  lemma {:induction false} DistinctCard(l: seq<string>)
    requires Distinct(l)
    ensures |set x | x in l| == |l|
  {
    if l != [] {
      DistinctCard(l[1..]);
      assert (set x | x in l) == {l[0]} + (set x | x in l[1..]);
      assert l[0] !in (set x | x in l[1..]);
    }
  }

  /** Counting the `.txt` entries of a listing counts the `.txt` files of the directory. */
  lemma ListingCount(listing: seq<string>, d: Directory)
    requires IsListing(listing, d.Keys)
    ensures |TxtFiles(listing)| == TxtCount(d)
  {
    var t := TxtFiles(listing);
    DistinctCard(t);
    assert (set x | x in t) == (set k | k in d && IsTxt(k));
  }
}
