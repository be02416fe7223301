/** Writing one regular record and the disk quota enforced right after it:
    when the directory then holds more `.txt` files than the quota, the regular
    file with the smallest creation time is removed (the first such file in
    listing order on a tie). The count covers core files too; only the choice
    of victim is restricted to regular files. */
module Quota {
  import opened Text
  import opened Wrappers
  import opened Storage

  /** The simulated disk quota, in `.txt` files. */
  const MAX_MEMORY_FILES: nat := 100

  /** The name of the record written at timestamp `stamp`. */
  function MemName(stamp: string): string {
    "mem_" + stamp + ".txt"
  }

  /** A written record is always a regular file. */
  lemma MemNameIsRegular(stamp: string)
    ensures IsRegular(MemName(stamp))
  {
    var name := MemName(stamp);
    assert name[0] == 'm';
    assert name[|name| - 4..] == ".txt";
  }

  /** `min(regs, key=ctime)`: the index of the first file of `regs` whose creation
      time is minimal. */
  function OldestIndex(regs: seq<string>, d: Directory): (i: nat)
    requires regs != []
    requires forall x :: x in regs ==> x in d
    ensures i < |regs|
    ensures forall j :: 0 <= j < |regs| ==> d[regs[i]].ctime <= d[regs[j]].ctime
    ensures forall j :: 0 <= j < i ==> d[regs[j]].ctime > d[regs[i]].ctime
  {
    if |regs| == 1 then 0
    else
      var last := |regs| - 1;
      var i := OldestIndex(regs[..last], d);
      if d[regs[last]].ctime < d[regs[i]].ctime then last else i
  }

  /** The file the quota removes from directory `d` enumerated as `listing`, if any. */
  function Victim(listing: seq<string>, d: Directory): (v: Option<string>)
    requires forall x :: x in listing ==> x in d
    ensures v.Some? <==> |TxtFiles(listing)| > MAX_MEMORY_FILES && RegularFiles(listing) != []
    ensures v.Some? ==>
      && v.value in listing && v.value in d && IsRegular(v.value)
      && (forall x :: x in RegularFiles(listing) ==> d[v.value].ctime <= d[x].ctime)
  {
    var regs := RegularFiles(listing);
    if |TxtFiles(listing)| > MAX_MEMORY_FILES && regs != [] then
      var i := OldestIndex(regs, d);
      assert forall x :: x in regs ==> d[regs[i]].ctime <= d[x].ctime;
      Some(regs[i])
    else None
  }

  /** The directory after `store_memory_block(text)` at time `now`: `outcome`
      says what the write leaves behind, `listing` is the directory
      enumeration after the write, and the removal of the victim succeeds iff
      `removeOk`. Only a write that completes reaches the quota step. Besides
      the file written, the only file that can disappear is a regular one. */
  function AfterStore(d: Directory, name: string, text: string, now: real, outcome: WriteOutcome,
                      listing: seq<string>, removeOk: bool): (r: Directory)
    requires forall x :: x in listing ==> x == name || x in d
    ensures forall x :: x in r && x != name ==> x in d && r[x] == d[x]
    ensures forall x :: x in d && x != name && x !in r ==> IsRegular(x)
  {
    match outcome
    case NotCreated => d
    case Truncated(kept) => d[name := Record(Prefix(text, kept), now)]
    case Written =>
      var w := d[name := Record(text, now)];
      match Victim(listing, w)
      case Some(v) => if removeOk then w - {v} else w
      case None => w
  }

  /** A write that does not complete never reaches the quota step: whether
      its file was never created or holds only part of the text, no file
      disappears, every file other than the one written keeps its record, and
      no other file appears; when the file was never created the directory is
      exactly as it was. */
  lemma FailedWriteKeepsFiles(d: Directory, name: string, text: string, now: real, outcome: WriteOutcome,
                              listing: seq<string>, removeOk: bool)
    requires forall x :: x in listing ==> x == name || x in d
    requires !outcome.Written?
    ensures var r := AfterStore(d, name, text, now, outcome, listing, removeOk);
      && d.Keys <= r.Keys <= d.Keys + {name}
      && (forall x :: x in d && x != name ==> r[x] == d[x])
      && (name in r <==> name in d || outcome.Truncated?)
      && (outcome.NotCreated? ==> r == d)
  {
  }

  /** A write that fails after creating its file returns before the quota
      step: the file stays, holding a prefix of the text, and no other file
      changes or disappears. */
  lemma FailedWriteSkipsQuota(d: Directory, name: string, text: string, now: real, kept: nat,
                              listing: seq<string>, removeOk: bool)
    requires forall x :: x in listing ==> x == name || x in d
    ensures var r := AfterStore(d, name, text, now, Truncated(kept), listing, removeOk);
      && r.Keys == d.Keys + {name}
      && (forall x :: x in d && x != name ==> r[x] == d[x])
      && r[name].content <= text && r[name].ctime == now
  {
  }

  /** So such a write can take a full directory over the quota: with exactly
      `MAX_MEMORY_FILES` `.txt` files before it, one more remains after it. */
  lemma FailedWriteExceedsQuota(d: Directory, stamp: string, text: string, now: real, kept: nat,
                                listing: seq<string>, removeOk: bool)
    requires forall x :: x in listing ==> x == MemName(stamp) || x in d
    requires TxtCount(d) == MAX_MEMORY_FILES && MemName(stamp) !in d
    ensures TxtCount(AfterStore(d, MemName(stamp), text, now, Truncated(kept), listing, removeOk))
            == MAX_MEMORY_FILES + 1
  {
    var name := MemName(stamp);
    MemNameIsRegular(stamp);
    var r := d[name := Record(Prefix(text, kept), now)];
    assert (set k | k in r && IsTxt(k)) == (set k | k in d && IsTxt(k)) + {name};
  }

  /** After a completed write, at most one file is gone, it is a regular file
      and it was listed; every other file, core files included, keeps its
      record. */
  lemma EvictsAtMostOne(d: Directory, stamp: string, text: string, now: real,
                        listing: seq<string>, removeOk: bool)
    requires IsListing(listing, d.Keys + {MemName(stamp)})
    ensures var name := MemName(stamp);
      var w := d[name := Record(text, now)];
      var r := AfterStore(d, name, text, now, Written, listing, removeOk);
      && r.Keys <= w.Keys
      && (forall x, y :: x in w && y in w && x !in r && y !in r ==> x == y)
      && (forall x :: x in r ==> r[x] == w[x])
      && (forall x :: x in w && x !in r ==> IsRegular(x) && x in listing)
      && (forall x :: x in d && IsCore(x) ==> x in r && r[x] == d[x])
  {
    MemNameIsRegular(stamp);
  }

  /** The file a completed write evicts, if any, has minimal creation time
      among the listed regular files and comes first among those in listing
      order. */
  lemma EvictsOldest(d: Directory, stamp: string, text: string, now: real,
                     listing: seq<string>, removeOk: bool, x: string)
    requires IsListing(listing, d.Keys + {MemName(stamp)})
    requires var w := d[MemName(stamp) := Record(text, now)];
      x in w && x !in AfterStore(d, MemName(stamp), text, now, Written, listing, removeOk)
    ensures var w := d[MemName(stamp) := Record(text, now)];
      var regs := RegularFiles(listing);
      && (forall y :: y in regs ==> y in w && w[x].ctime <= w[y].ctime)
      && exists i :: 0 <= i < |regs| && regs[i] == x
           && forall k :: 0 <= k < i ==> w[regs[k]].ctime > w[x].ctime
  {
    var w := d[MemName(stamp) := Record(text, now)];
    var regs := RegularFiles(listing);
    var i := OldestIndex(regs, w);
    assert x == regs[i];
  }

  /** A completed write always creates a regular file, so the quota step never
      finds the regular list empty. */
  lemma RegularPresentAfterWrite(d: Directory, stamp: string, listing: seq<string>)
    requires IsListing(listing, d.Keys + {MemName(stamp)})
    ensures RegularFiles(listing) != []
  {
    MemNameIsRegular(stamp);
    PartitionOfListing(listing);
    assert MemName(stamp) in RegularFiles(listing);
  }

  lemma SubsetCard(a: set<string>, b: set<string>)
    requires a <= b
    ensures |a| <= |b|
  {
    assert b == a + (b - a);
    assert a * (b - a) == {};
  }

  /** Writing one file adds at most one `.txt` file. */
  lemma TxtCountAfterWrite(d: Directory, name: string, rec: Record)
    ensures TxtCount(d[name := rec]) <= TxtCount(d) + 1
  {
    var before := set k | k in d && IsTxt(k);
    var after := set k | k in d[name := rec] && IsTxt(k);
    SubsetCard(after, before + {name});
  }

  /** Removing a `.txt` file takes exactly one off the count. */
  lemma TxtCountAfterRemove(w: Directory, v: string)
    requires v in w && IsTxt(v)
    ensures TxtCount(w - {v}) == TxtCount(w) - 1
  {
    var after := set k | k in w && IsTxt(k);
    assert (set k | k in w - {v} && IsTxt(k)) == after - {v};
  }

  /** The quota across one write: a directory with at most
      `MAX_MEMORY_FILES` `.txt` files still has at most that many after a
      write that completes or creates no file and whose removal succeeds, and
      at most one more after any single write otherwise. */
  lemma QuotaPreserved(d: Directory, stamp: string, text: string, now: real, outcome: WriteOutcome,
                       listing: seq<string>, removeOk: bool)
    requires IsListing(listing, d.Keys + {MemName(stamp)})
    requires TxtCount(d) <= MAX_MEMORY_FILES
    ensures var r := AfterStore(d, MemName(stamp), text, now, outcome, listing, removeOk);
      && (!outcome.Truncated? && removeOk ==> TxtCount(r) <= MAX_MEMORY_FILES)
      && TxtCount(r) <= MAX_MEMORY_FILES + 1
  {
    var name := MemName(stamp);
    match outcome
    case NotCreated =>
    case Truncated(kept) =>
      TxtCountAfterWrite(d, name, Record(Prefix(text, kept), now));
    case Written =>
      var w := d[name := Record(text, now)];
      ListingCount(listing, w);
      TxtCountAfterWrite(d, name, Record(text, now));
      RegularPresentAfterWrite(d, stamp, listing);
      var v := Victim(listing, w);
      if v.Some? && removeOk {
        TxtCountAfterRemove(w, v.value);
      }
  }

  /** A completed write whose removal fails also leaves one file too many:
      with exactly `MAX_MEMORY_FILES` `.txt` files before it, one more remains. */
  lemma FailedRemovalExceedsQuota(d: Directory, stamp: string, text: string, now: real,
                                  listing: seq<string>)
    requires forall x :: x in listing ==> x == MemName(stamp) || x in d
    requires TxtCount(d) == MAX_MEMORY_FILES && MemName(stamp) !in d
    ensures TxtCount(AfterStore(d, MemName(stamp), text, now, Written, listing, false))
            == MAX_MEMORY_FILES + 1
  {
    var name := MemName(stamp);
    MemNameIsRegular(stamp);
    var w := d[name := Record(text, now)];
    assert AfterStore(d, name, text, now, Written, listing, false) == w;
    assert (set k | k in w && IsTxt(k)) == (set k | k in d && IsTxt(k)) + {name};
  }

  /** Read after write: after a completed write the new record holds exactly
      the text written, unless the quota chose that very record as its victim
      and removed it. */
  lemma ReadAfterWrite(d: Directory, stamp: string, text: string, now: real,
                       listing: seq<string>, removeOk: bool)
    requires IsListing(listing, d.Keys + {MemName(stamp)})
    ensures var name := MemName(stamp);
      var w := d[name := Record(text, now)];
      var r := AfterStore(d, name, text, now, Written, listing, removeOk);
      (name in r && r[name] == Record(text, now)) <==> !(removeOk && Victim(listing, w) == Some(name))
  {
  }

  /** In particular a write that leaves the quota unexceeded always keeps its
      record, as does the first write into an empty directory. */
  lemma WriteBelowQuotaKept(d: Directory, stamp: string, text: string, now: real,
                            listing: seq<string>, removeOk: bool)
    requires IsListing(listing, d.Keys + {MemName(stamp)})
    requires TxtCount(d[MemName(stamp) := Record(text, now)]) <= MAX_MEMORY_FILES
    ensures var name := MemName(stamp);
      var r := AfterStore(d, name, text, now, Written, listing, removeOk);
      name in r && r[name] == Record(text, now)
  {
    ListingCount(listing, d[MemName(stamp) := Record(text, now)]);
  }
}
