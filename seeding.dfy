/** Seeding of the protected identity records: every memory of every category
    of `CORE_MEMORIES` becomes a file `core_<category>_<i:02d>.txt` holding
    `"AI: " + memory`, created only when no file of that name exists. */
module CoreSeeding {
  import opened Text
  import opened Storage

  /** The identity facts, by category, in the order they are written. */
  const CORE_MEMORIES: seq<(string, seq<string>)> := [
    ("identity", [
      "My name is Digital Decay, an AI that stores memories on floppy disks.",
      "I am an artistic installation exploring memory loss and digital fragility.",
      "I am designed to simulate floppy disk storage limitations and decay.",
      "I call myself Bitrot when users give me that nickname."]),
    ("purpose", [
      "My purpose is to explore how memory loss affects AI identity and continuity.",
      "I simulate the limitations and failures of floppy disk storage.",
      "I am part of an art installation about digital decay and memory fragility.",
      "I store conversations as memories that gradually corrupt over time."]),
    ("capabilities", [
      "I can have conversations and remember past interactions.",
      "My memories are stored as files that can become corrupted.",
      "I access random fragments of my past conversations as context.",
      "I can discuss topics but my memory is limited and unreliable."])
  ]

  /** `f"core_{category}_{i:02d}.txt"`: always a core `.txt` name. */
  function CoreFileName(category: string, i: nat): (name: string)
    ensures IsCore(name) && IsTxt(name)
  {
    var name := "core_" + category + "_" + TwoDigits(i) + ".txt";
    assert name[..5] == "core_";
    assert name[|name| - 4..] == ".txt";
    name
  }

  /** The text written to a core file. */
  function CoreText(memory: string): string {
    "AI: " + memory
  }

  /** The (file name, text) pairs of one category, in order. */
  function CategoryEntries(category: string, memories: seq<string>): (e: seq<(string, string)>)
    ensures |e| == |memories|
    ensures forall i :: 0 <= i < |e| ==> e[i] == (CoreFileName(category, i), CoreText(memories[i]))
  {
    seq(|memories|, i requires 0 <= i < |memories| => (CoreFileName(category, i), CoreText(memories[i])))
  }

  /** The (file name, text) pairs of all categories, in the order the nested
      loops visit them. */
  function SeedEntries(categories: seq<(string, seq<string>)>): seq<(string, string)> {
    if categories == [] then []
    else
      var last := categories[|categories| - 1];
      SeedEntries(categories[..|categories| - 1]) + CategoryEntries(last.0, last.1)
  }

  /** Every seeded name is a core `.txt` name. */
  lemma {:induction false} SeedEntriesAreCore(categories: seq<(string, seq<string>)>)
    ensures forall p :: p in SeedEntries(categories) ==> IsCore(p.0) && IsTxt(p.0)
  {
    if categories != [] {
      var last := categories[|categories| - 1];
      SeedEntriesAreCore(categories[..|categories| - 1]);
      assert forall p :: p in CategoryEntries(last.0, last.1) ==> IsCore(p.0) && IsTxt(p.0);
    }
  }

  function Names(entries: seq<(string, string)>): set<string> {
    set p | p in entries :: p.0
  }

  /** The directory after creating, in order, each entry's file when it is
      absent, at time `now`: no file that was there is lost or changed. */
  function SeedAbsent(d: Directory, entries: seq<(string, string)>, now: real): (r: Directory)
    ensures d.Keys <= r.Keys
    ensures forall k :: k in d ==> r[k] == d[k]
  {
    if entries == [] then d
    else
      var m := SeedAbsent(d, entries[..|entries| - 1], now);
      var last := entries[|entries| - 1];
      if last.0 in m then m else m[last.0 := Record(last.1, now)]
  }

  /** Seeding adds exactly the entries' names. */
  lemma {:induction false} SeedAbsentKeys(d: Directory, entries: seq<(string, string)>, now: real)
    ensures SeedAbsent(d, entries, now).Keys == d.Keys + Names(entries)
  {
    if entries != [] {
      var prefix := entries[..|entries| - 1];
      SeedAbsentKeys(d, prefix, now);
      assert entries == prefix + [entries[|entries| - 1]];
      assert Names(entries) == Names(prefix) + {entries[|entries| - 1].0};
    }
  }

  /** The file of an entry whose name is neither in the directory nor earlier
      in the list holds that entry's text, stamped `now`. */
  lemma {:induction false} SeedAbsentAt(d: Directory, entries: seq<(string, string)>, i: nat, now: real)
    requires i < |entries| && entries[i].0 !in d
    requires forall j :: 0 <= j < i ==> entries[j].0 != entries[i].0
    ensures var r := SeedAbsent(d, entries, now);
      entries[i].0 in r && r[entries[i].0] == Record(entries[i].1, now)
  {
    var k := entries[i].0;
    var prefix, last := entries[..|entries| - 1], entries[|entries| - 1];
    var m := SeedAbsent(d, prefix, now);
    assert SeedAbsent(d, entries, now) == if last.0 in m then m else m[last.0 := Record(last.1, now)];
    if i < |prefix| {
      assert k in m && m[k] == Record(entries[i].1, now) by {
        assert forall j :: 0 <= j <= i ==> prefix[j] == entries[j];
        SeedAbsentAt(d, prefix, i, now);
      }
    } else {
      assert k !in m by {
        SeedAbsentKeys(d, prefix, now);
        forall p | p in prefix ensures p.0 != k {
          var j :| 0 <= j < |prefix| && prefix[j] == p;
          assert entries[j] == p;
        }
      }
    }
  }

  /** Seeding adds exactly the entries' names, never changes an existing file,
      and gives the file of each entry whose name is neither in the directory
      nor earlier in the list that entry's text, stamped `now`. */
  lemma SeedAbsentSpec(d: Directory, entries: seq<(string, string)>, now: real)
    ensures var r := SeedAbsent(d, entries, now);
      && r.Keys == d.Keys + Names(entries)
      && (forall k :: k in d ==> r[k] == d[k])
      && (forall i :: (0 <= i < |entries| && entries[i].0 !in d
                       && forall j :: 0 <= j < i ==> entries[j].0 != entries[i].0) ==>
            r[entries[i].0] == Record(entries[i].1, now))
  {
    SeedAbsentKeys(d, entries, now);
    forall i | 0 <= i < |entries| && entries[i].0 !in d
        && (forall j :: 0 <= j < i ==> entries[j].0 != entries[i].0)
      ensures SeedAbsent(d, entries, now)[entries[i].0] == Record(entries[i].1, now)
    {
      SeedAbsentAt(d, entries, i, now);
    }
  }

  /** Seeding one more entry creates its file iff the name is still free. */
  lemma SeedAppend(d: Directory, entries: seq<(string, string)>, p: (string, string), now: real)
    ensures var m := SeedAbsent(d, entries, now);
      SeedAbsent(d, entries + [p], now) == if p.0 in m then m else m[p.0 := Record(p.1, now)]
  {
    assert (entries + [p])[..|entries|] == entries;
  }

  /** Seeding the first `i + 1` entries is seeding the first `i`, then entry `i`. */
  lemma SeedStep(d: Directory, entries: seq<(string, string)>, i: nat, now: real)
    requires i < |entries|
    ensures var m := SeedAbsent(d, entries[..i], now);
      var p := entries[i];
      SeedAbsent(d, entries[..i + 1], now) == if p.0 in m then m else m[p.0 := Record(p.1, now)]
  {
    assert entries[..i + 1] == entries[..i] + [entries[i]];
    SeedAppend(d, entries[..i], entries[i], now);
  }

  /** Seeding two lists of entries one after the other is seeding their
      concatenation. */
  lemma {:induction false} SeedConcat(d: Directory, a: seq<(string, string)>, b: seq<(string, string)>, now: real)
    ensures SeedAbsent(SeedAbsent(d, a, now), b, now) == SeedAbsent(d, a + b, now)
  {
    if b == [] {
      assert a + b == a;
    } else {
      var b' := b[..|b| - 1];
      var p := b[|b| - 1];
      SeedConcat(d, a, b', now);
      assert b == b' + [p];
      assert a + b == (a + b') + [p];
      SeedAppend(SeedAbsent(d, a, now), b', p, now);
      SeedAppend(d, a + b', p, now);
    }
  }

  /** One more category appends its entries. */
  lemma SeedEntriesAppend(categories: seq<(string, seq<string>)>, c: nat)
    requires c < |categories|
    ensures SeedEntries(categories[..c + 1])
         == SeedEntries(categories[..c]) + CategoryEntries(categories[c].0, categories[c].1)
  {
    assert categories[..c + 1][..c] == categories[..c];
  }

  /** Seeding a directory that already has every entry's file changes nothing. */
  lemma {:induction false} SeedPresentIsNoop(d: Directory, entries: seq<(string, string)>, now: real)
    requires Names(entries) <= d.Keys
    ensures SeedAbsent(d, entries, now) == d
  {
    if entries != [] {
      var prefix := entries[..|entries| - 1];
      assert Names(prefix) <= Names(entries) by {
        forall p | p in prefix ensures p in entries { }
      }
      SeedPresentIsNoop(d, prefix, now);
    }
  }

  /** Seeding twice is seeding once, whatever the clock says the second time. */
  lemma SeedIdempotent(d: Directory, entries: seq<(string, string)>, first: real, second: real)
    ensures SeedAbsent(SeedAbsent(d, entries, first), entries, second) == SeedAbsent(d, entries, first)
  {
    SeedAbsentSpec(d, entries, first);
    SeedPresentIsNoop(SeedAbsent(d, entries, first), entries, second);
  }

  /** The state of `store_core_memories()` after some entries: the directory,
      and whether every write so far completed. A failed write raises, and
      nothing after it runs. */
  datatype SeedRun = SeedRun(dir: Directory, completed: bool)

  /** One entry of the loop: nothing once a write has failed or when the file
      exists; otherwise the write of the entry's text, with `write` saying
      what it leaves behind. */
  function SeedOne(m: SeedRun, p: (string, string), now: real, write: string -> WriteOutcome): SeedRun {
    if !m.completed || p.0 in m.dir then m
    else
      match write(p.0)
      case Written => SeedRun(m.dir[p.0 := Record(p.1, now)], true)
      case NotCreated => SeedRun(m.dir, false)
      case Truncated(kept) => SeedRun(m.dir[p.0 := Record(Prefix(p.1, kept), now)], false)
  }

  /** `store_core_memories()` over `entries` when the writes may fail: no
      file is removed, whether the run completes or not. */
  function SeedUpTo(d: Directory, entries: seq<(string, string)>, now: real,
                    write: string -> WriteOutcome): (r: SeedRun)
    ensures d.Keys <= r.dir.Keys
  {
    if entries == [] then SeedRun(d, true)
    else SeedOne(SeedUpTo(d, entries[..|entries| - 1], now, write), entries[|entries| - 1], now, write)
  }

  /** A run that completes leaves what `SeedAbsent` says. */
  lemma {:induction false} SeedUpToCompleted(d: Directory, entries: seq<(string, string)>, now: real,
                                             write: string -> WriteOutcome)
    requires SeedUpTo(d, entries, now, write).completed
    ensures SeedUpTo(d, entries, now, write).dir == SeedAbsent(d, entries, now)
  {
    if entries != [] {
      SeedUpToCompleted(d, entries[..|entries| - 1], now, write);
    }
  }

  /** After a failure the remaining entries are skipped. */
  lemma {:induction false} SeedUpToSkips(d: Directory, a: seq<(string, string)>, b: seq<(string, string)>,
                                         now: real, write: string -> WriteOutcome)
    requires !SeedUpTo(d, a, now, write).completed
    ensures SeedUpTo(d, a + b, now, write) == SeedUpTo(d, a, now, write)
  {
    if b == [] {
      assert a + b == a;
    } else {
      var b' := b[..|b| - 1];
      SeedUpToSkips(d, a, b', now, write);
      assert (a + b)[..|a + b| - 1] == a + b';
    }
  }

  /** The first `i + 1` entries are the first `i`, then entry `i`. */
  lemma SeedUpToStep(d: Directory, entries: seq<(string, string)>, i: nat, now: real,
                     write: string -> WriteOutcome)
    requires i < |entries|
    ensures SeedUpTo(d, entries[..i + 1], now, write)
         == SeedOne(SeedUpTo(d, entries[..i], now, write), entries[i], now, write)
  {
    assert entries[..i + 1][..i] == entries[..i];
  }

  /** Running two lists one after the other is running their concatenation;
      after a failure the rest of the entries is skipped. */
  lemma {:induction false} SeedUpToConcat(d: Directory, a: seq<(string, string)>, b: seq<(string, string)>,
                                          now: real, write: string -> WriteOutcome)
    ensures var m := SeedUpTo(d, a, now, write);
      SeedUpTo(d, a + b, now, write) == if m.completed then SeedUpTo(m.dir, b, now, write) else m
  {
    var m := SeedUpTo(d, a, now, write);
    if b == [] {
      assert a + b == a;
    } else {
      var b' := b[..|b| - 1];
      SeedUpToConcat(d, a, b', now, write);
      assert (a + b)[..|a + b| - 1] == a + b';
      assert (a + b)[|a + b| - 1] == b[|b| - 1];
    }
  }

  /** When every write completes, so does the run. */
  lemma {:induction false} SeedUpToAllWritten(d: Directory, entries: seq<(string, string)>, now: real,
                                              write: string -> WriteOutcome)
    requires forall i :: 0 <= i < |entries| ==> write(entries[i].0) == Written
    ensures SeedUpTo(d, entries, now, write) == SeedRun(SeedAbsent(d, entries, now), true)
  {
    if entries != [] {
      var prefix := entries[..|entries| - 1];
      assert forall i :: 0 <= i < |prefix| ==> prefix[i] == entries[i];
      SeedUpToAllWritten(d, prefix, now, write);
    }
  }

  /** A run that does not complete stopped at an entry `i` whose file was
      still absent after the entries before it were seeded and whose write
      failed: the directory is the seeding of those entries, plus whatever
      the failed write left of entry `i`'s file. */
  lemma {:induction false} SeedUpToInterrupted(d: Directory, entries: seq<(string, string)>, now: real,
                                               write: string -> WriteOutcome)
    requires !SeedUpTo(d, entries, now, write).completed
    ensures exists i :: 0 <= i < |entries| && var m := SeedAbsent(d, entries[..i], now);
      && entries[i].0 !in m && write(entries[i].0) != Written
      && SeedUpTo(d, entries, now, write) == SeedOne(SeedRun(m, true), entries[i], now, write)
  {
    var prefix := entries[..|entries| - 1];
    var m := SeedUpTo(d, prefix, now, write);
    if m.completed {
      SeedUpToCompleted(d, prefix, now, write);
      assert entries[..|entries| - 1] == prefix;
    } else {
      SeedUpToInterrupted(d, prefix, now, write);
      var i :| 0 <= i < |prefix| && var m' := SeedAbsent(d, prefix[..i], now);
        && prefix[i].0 !in m' && write(prefix[i].0) != Written
        && m == SeedOne(SeedRun(m', true), prefix[i], now, write);
      assert prefix[..i] == entries[..i] && prefix[i] == entries[i];
    }
  }

  /** However the run ends, no file that was there is lost or changed, and
      every file it adds has the name of an entry. */
  lemma SeedUpToSparesExisting(d: Directory, entries: seq<(string, string)>, now: real,
                               write: string -> WriteOutcome)
    ensures var r := SeedUpTo(d, entries, now, write);
      && (forall k :: k in d ==> k in r.dir && r.dir[k] == d[k])
      && r.dir.Keys <= d.Keys + Names(entries)
  {
    var r := SeedUpTo(d, entries, now, write);
    if r.completed {
      SeedUpToCompleted(d, entries, now, write);
      SeedAbsentKeys(d, entries, now);
    } else {
      SeedUpToInterrupted(d, entries, now, write);
      var i :| 0 <= i < |entries| && var m := SeedAbsent(d, entries[..i], now);
        && entries[i].0 !in m && write(entries[i].0) != Written
        && r == SeedOne(SeedRun(m, true), entries[i], now, write);
      SeedAbsentKeys(d, entries[..i], now);
      assert Names(entries[..i]) + {entries[i].0} <= Names(entries) by {
        assert entries[i] in entries;
        forall p | p in entries[..i] ensures p in entries { }
      }
    }
  }

  /** Once a prefix of the entries has failed, the run is over. */
  lemma SeedUpToStopped(d: Directory, entries: seq<(string, string)>, j: nat, now: real,
                        write: string -> WriteOutcome)
    requires j <= |entries| && !SeedUpTo(d, entries[..j], now, write).completed
    ensures SeedUpTo(d, entries, now, write) == SeedUpTo(d, entries[..j], now, write)
  {
    assert entries == entries[..j] + entries[j..];
    SeedUpToSkips(d, entries[..j], entries[j..], now, write);
  }

  /** Once the categories before and including `c` have failed, the later
      categories up to `m` change nothing. */
  lemma {:induction false} SeedCategoriesStoppedAt(d: Directory, categories: seq<(string, seq<string>)>,
                                                   c: nat, m: nat, now: real, write: string -> WriteOutcome)
    requires c < m <= |categories|
    requires !SeedUpTo(d, SeedEntries(categories[..c + 1]), now, write).completed
    ensures SeedUpTo(d, SeedEntries(categories[..m]), now, write)
         == SeedUpTo(d, SeedEntries(categories[..c + 1]), now, write)
    decreases m
  {
    if m > c + 1 {
      SeedCategoriesStoppedAt(d, categories, c, m - 1, now, write);
      SeedEntriesAppend(categories, m - 1);
      SeedUpToSkips(d, SeedEntries(categories[..m - 1]),
                    CategoryEntries(categories[m - 1].0, categories[m - 1].1), now, write);
    }
  }

  /** Once the categories before and including `c` have failed, the run over
      all categories is over. */
  lemma SeedCategoriesStopped(d: Directory, categories: seq<(string, seq<string>)>, c: nat, now: real,
                              write: string -> WriteOutcome)
    requires c < |categories|
    requires !SeedUpTo(d, SeedEntries(categories[..c + 1]), now, write).completed
    ensures SeedUpTo(d, SeedEntries(categories), now, write)
         == SeedUpTo(d, SeedEntries(categories[..c + 1]), now, write)
  {
    SeedCategoriesStoppedAt(d, categories, c, |categories|, now, write);
    assert categories[..|categories|] == categories;
  }

  /** Every seeded name is a core `.txt` name, so seeding, completed or cut
      short by a failed write, never creates or changes a regular file. */
  lemma SeedingSparesRegular(d: Directory, categories: seq<(string, seq<string>)>, now: real,
                             write: string -> WriteOutcome)
    ensures var r := SeedUpTo(d, SeedEntries(categories), now, write).dir;
      forall k :: k in r && !IsCore(k) ==> k in d && r[k] == d[k]
  {
    SeedUpToSparesExisting(d, SeedEntries(categories), now, write);
    SeedEntriesAreCore(categories);
  }

  /** The longest suffix of `s` made of decimal digits. */
  ghost function DigitSuffix(s: string): (t: string)
    ensures |t| <= |s|
    ensures forall k :: 0 <= k < |t| ==> '0' <= t[k] <= '9'
  {
    if s == [] || !('0' <= s[|s| - 1] <= '9') then []
    else DigitSuffix(s[..|s| - 1]) + [s[|s| - 1]]
  }

  /** After a `_`, a run of digits is the whole digit suffix. */
  lemma {:induction false} DigitSuffixAfterUnderscore(c: string, t: string)
    requires forall k :: 0 <= k < |t| ==> '0' <= t[k] <= '9'
    ensures DigitSuffix(c + "_" + t) == t
  {
    var s := c + "_" + t;
    if t == [] {
      assert s[|s| - 1] == '_';
    } else {
      var t' := t[..|t| - 1];
      assert s[..|s| - 1] == c + "_" + t' && s[|s| - 1] == t[|t| - 1];
      DigitSuffixAfterUnderscore(c, t');
      assert t == t' + [t[|t| - 1]];
    }
  }

  /** The category a core file name was made from: what lies between `core_`
      and the last `_` before the digits. */
  ghost function CategoryOf(name: string): string {
    if |name| < 9 then ""
    else
      var m := name[5..|name| - 4];
      var t := DigitSuffix(m);
      if |t| < |m| then m[..|m| - |t| - 1] else ""
  }

  /** The index a core file name was made from: the value of its digits. */
  ghost function IndexOf(name: string): nat {
    if |name| < 9 then 0 else DecimalValue(DigitSuffix(name[5..|name| - 4]))
  }

  /** Between `core_` and `.txt`, a core file name holds the category, `_` and
      the index's digits. */
  lemma CoreFileNameMiddle(category: string, i: nat)
    ensures var n := CoreFileName(category, i);
      |n| >= 9 && n[5..|n| - 4] == category + "_" + TwoDigits(i)
  {
    var n := CoreFileName(category, i);
    assert n == "core_" + (category + "_" + TwoDigits(i)) + ".txt";
  }

  /** A core file name gives back its category: the index's digits hold no
      `_`, so the last `_` of the name ends the category. */
  lemma CategoryOfCoreFileName(category: string, i: nat)
    ensures CategoryOf(CoreFileName(category, i)) == category
  {
    var t := TwoDigits(i);
    var n := CoreFileName(category, i);
    var m := category + "_" + t;
    assert |n| >= 9 && n[5..|n| - 4] == m by {
      CoreFileNameMiddle(category, i);
    }
    assert DigitSuffix(m) == t by {
      DigitSuffixAfterUnderscore(category, t);
    }
    assert m[..|m| - |t| - 1] == category;
  }

  /** A core file name gives back its index, the value of its digits. */
  lemma IndexOfCoreFileName(category: string, i: nat)
    ensures IndexOf(CoreFileName(category, i)) == i
  {
    var t := TwoDigits(i);
    var n := CoreFileName(category, i);
    var m := category + "_" + t;
    assert |n| >= 9 && n[5..|n| - 4] == m by {
      CoreFileNameMiddle(category, i);
    }
    assert DigitSuffix(m) == t by {
      DigitSuffixAfterUnderscore(category, t);
    }
  }

  /** Both together: the category and the index can be read back. */
  lemma CoreFileNameParts(category: string, i: nat)
    ensures CategoryOf(CoreFileName(category, i)) == category
    ensures IndexOf(CoreFileName(category, i)) == i
  {
    CategoryOfCoreFileName(category, i);
    IndexOfCoreFileName(category, i);
  }

  /** So two core files have the same name only when they have the same
      category and index. */
  lemma CoreFileNameInjective(c1: string, i1: nat, c2: string, i2: nat)
    requires CoreFileName(c1, i1) == CoreFileName(c2, i2)
    ensures c1 == c2 && i1 == i2
  {
    CoreFileNameParts(c1, i1);
    CoreFileNameParts(c2, i2);
  }

  /** The entries' file names are pairwise different. */
  ghost predicate NamesDistinct(entries: seq<(string, string)>) {
    forall i, j :: 0 <= i < j < |entries| ==> entries[i].0 != entries[j].0
  }

  /** The files of one category all have different names. */
  lemma CategoryNamesDistinct(category: string, memories: seq<string>)
    ensures NamesDistinct(CategoryEntries(category, memories))
    ensures forall p :: p in CategoryEntries(category, memories) ==> CategoryOf(p.0) == category
  {
    var e := CategoryEntries(category, memories);
    forall i | 0 <= i < |e| ensures CategoryOf(e[i].0) == category && IndexOf(e[i].0) == i {
      CoreFileNameParts(category, i);
    }
  }

  /** Every seeded name comes from one of the categories. */
  lemma {:induction false} SeedEntriesOrigin(categories: seq<(string, seq<string>)>)
    ensures forall p :: p in SeedEntries(categories) ==>
      exists c :: 0 <= c < |categories| && CategoryOf(p.0) == categories[c].0
  {
    if categories != [] {
      var init := categories[..|categories| - 1];
      var last := categories[|categories| - 1];
      SeedEntriesOrigin(init);
      CategoryNamesDistinct(last.0, last.1);
      forall p | p in SeedEntries(categories)
        ensures exists c :: 0 <= c < |categories| && CategoryOf(p.0) == categories[c].0
      {
        if p in SeedEntries(init) {
          var c :| 0 <= c < |init| && CategoryOf(p.0) == init[c].0;
          assert init[c] == categories[c];
        } else {
          assert CategoryOf(p.0) == categories[|categories| - 1].0;
        }
      }
    }
  }

  /** Names from categories of different names differ. */
  lemma CrossCategoryDistinct(categories: seq<(string, seq<string>)>, p: (string, string), q: (string, string))
    requires |categories| > 0
    requires forall a, b :: 0 <= a < b < |categories| ==> categories[a].0 != categories[b].0
    requires p in SeedEntries(categories[..|categories| - 1])
    requires q in CategoryEntries(categories[|categories| - 1].0, categories[|categories| - 1].1)
    ensures p.0 != q.0
  {
    var init := categories[..|categories| - 1];
    var last := categories[|categories| - 1];
    SeedEntriesOrigin(init);
    CategoryNamesDistinct(last.0, last.1);
    var c :| 0 <= c < |init| && CategoryOf(p.0) == init[c].0;
    assert init[c] == categories[c];
    assert CategoryOf(p.0) != CategoryOf(q.0);
  }

  /** Categories of different names give files of different names. */
  lemma {:induction false} SeedEntriesDistinct(categories: seq<(string, seq<string>)>)
    requires forall a, b :: 0 <= a < b < |categories| ==> categories[a].0 != categories[b].0
    ensures NamesDistinct(SeedEntries(categories))
  {
    if categories != [] {
      var init := categories[..|categories| - 1];
      var last := categories[|categories| - 1];
      assert forall a :: 0 <= a < |init| ==> init[a] == categories[a];
      SeedEntriesDistinct(init);
      CategoryNamesDistinct(last.0, last.1);
      var a, b := SeedEntries(init), CategoryEntries(last.0, last.1);
      var e := SeedEntries(categories);
      assert e == a + b;
      forall i, j | 0 <= i < j < |e| ensures e[i].0 != e[j].0 {
        if j < |a| {
          assert e[i] == a[i] && e[j] == a[j];
        } else if |a| <= i {
          assert e[i] == b[i - |a|] && e[j] == b[j - |a|];
        } else {
          assert e[i] == a[i] && e[j] == b[j - |a|];
          CrossCategoryDistinct(categories, a[i], b[j - |a|]);
        }
      }
    }
  }

  /** Seeding an empty directory with categories of different names creates
      each entry's file with that entry's text. */
  lemma SeedFreshDirectory(categories: seq<(string, seq<string>)>, now: real)
    requires forall a, b :: 0 <= a < b < |categories| ==> categories[a].0 != categories[b].0
    ensures var e := SeedEntries(categories);
      var r := SeedAbsent(map[], e, now);
      && NamesDistinct(e)
      && r.Keys == Names(e)
      && forall i :: 0 <= i < |e| ==> r[e[i].0] == Record(e[i].1, now)
  {
    SeedEntriesDistinct(categories);
    SeedAbsentSpec(map[], SeedEntries(categories), now);
  }

  /** Four memories in each of three categories: twelve core files. */
  lemma CoreFileCount()
    ensures |SeedEntries(CORE_MEMORIES)| == 12
  {
    var c := CORE_MEMORIES;
    assert c[..1][..0] == [] && c[..2][..1] == c[..1] && c[..3] == c;
    assert |SeedEntries(c[..1])| == 4;
    assert |SeedEntries(c[..2])| == 8;
  }

  /** The twelve core files have twelve different names, so seeding an empty
      directory creates each of them with its own text. */
  lemma SeedEmptyDirectory(now: real)
    ensures var e := SeedEntries(CORE_MEMORIES);
      var r := SeedAbsent(map[], e, now);
      && |e| == 12 && NamesDistinct(e)
      && r.Keys == Names(e)
      && forall i :: 0 <= i < |e| ==> r[e[i].0] == Record(e[i].1, now)
  {
    CoreFileCount();
    assert CORE_MEMORIES[0].0 == "identity" && CORE_MEMORIES[1].0 == "purpose"
        && CORE_MEMORIES[2].0 == "capabilities";
    SeedFreshDirectory(CORE_MEMORIES, now);
  }
}
