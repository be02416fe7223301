/** The memory bank itself: a directory of records that the engine's
    operations read and update in place. Every operation is proved to leave
    the directory as the corresponding function of the old directory says;
    the properties of those functions are proved in their own modules. */
module MemoryUtils {
  import opened Wrappers
  import opened Storage
  import opened Corruption
  import opened Decay
  import opened Quota
  import opened CoreSeeding
  import opened Loader
  import Text

  /** `''.join(c if random.random() > rate else '' for c in content)`, drawing
      the coins from the random stream starting at draw `start`. */
  method CorruptContent(content: string, rng: nat -> Coin, start: nat, rate: real) returns (r: string)
    ensures r == Erode(content, Draws(rng, start, |content|), rate)
  {
    ghost var coins := Draws(rng, start, |content|);
    r := "";
    var i := 0;
    while i < |content|
      invariant 0 <= i <= |content|
      invariant r == Erode(content[..i], coins[..i], rate)
    {
      assert content[..i + 1][..i] == content[..i];
      assert coins[..i + 1][..i] == coins[..i];
      if rng(start + i) > rate {
        r := r + [content[i]];
      }
      i := i + 1;
    }
    assert content[..i] == content && coins[..i] == coins;
  }

  class MemoryBank {
    /** The files of the memory directory, by name. */
    var files: Directory

    /** A bank over a directory as it stands. */
    constructor(existing: Directory)
      ensures files == existing
    {
      files := existing;
    }

    /** `store_core_memories()`: creates, in category order, every core record
        whose file does not exist yet, stamped with the time `now`; `write`
        says what each write leaves behind. A failed write raises out of the
        loops, reported here as `completed == false`. */
    method StoreCoreMemories(now: real, write: string -> WriteOutcome) returns (completed: bool)
      modifies this
      ensures SeedRun(files, completed) == SeedUpTo(old(files), SeedEntries(CORE_MEMORIES), now, write)
    {
      completed := StoreCategories(CORE_MEMORIES, now, write);
    }

    /** The outer loop of `store_core_memories()`, over the categories. */
    method StoreCategories(categories: seq<(string, seq<string>)>, now: real, write: string -> WriteOutcome)
      returns (completed: bool)
      modifies this
      ensures SeedRun(files, completed) == SeedUpTo(old(files), SeedEntries(categories), now, write)
    {
      var c := 0;
      while c < |categories|
        invariant 0 <= c <= |categories|
        invariant SeedRun(files, true) == SeedUpTo(old(files), SeedEntries(categories[..c]), now, write)
      {
        var ok := StoreCategory(categories[c].0, categories[c].1, now, write);
        SeedUpToConcat(old(files), SeedEntries(categories[..c]),
                       CategoryEntries(categories[c].0, categories[c].1), now, write);
        SeedEntriesAppend(categories, c);
        if !ok {
          SeedCategoriesStopped(old(files), categories, c, now, write);
          return false;
        }
        c := c + 1;
      }
      assert categories[..c] == categories;
      return true;
    }

    /** The inner loop of `store_core_memories()`, over one category's memories. */
    method StoreCategory(category: string, memories: seq<string>, now: real, write: string -> WriteOutcome)
      returns (completed: bool)
      modifies this
      ensures SeedRun(files, completed) == SeedUpTo(old(files), CategoryEntries(category, memories), now, write)
    {
      ghost var entries := CategoryEntries(category, memories);
      var i := 0;
      while i < |memories|
        invariant 0 <= i <= |memories|
        invariant SeedRun(files, true) == SeedUpTo(old(files), entries[..i], now, write)
      {
        var name := CoreFileName(category, i);
        var text := CoreText(memories[i]);
        assert entries[i] == (name, text);
        SeedUpToStep(old(files), entries, i, now, write);
        if name !in files {
          match write(name) {
            case Written =>
              files := files[name := Record(text, now)];
            case NotCreated =>
              SeedUpToStopped(old(files), entries, i + 1, now, write);
              return false;
            case Truncated(kept) =>
              files := files[name := Record(Text.Prefix(text, kept), now)];
              SeedUpToStopped(old(files), entries, i + 1, now, write);
              return false;
          }
        }
        i := i + 1;
      }
      assert entries[..i] == entries;
      return true;
    }

    /** `store_memory_block(text)` at time `now`, naming the file after the
        timestamp `stamp`. `outcome` says what the write leaves behind; a write
        that fails returns at once, before the quota step. `listing` is the
        directory enumeration after the write, and the removal of the quota's
        victim succeeds iff `removeOk`. */
    method StoreMemoryBlock(text: string, stamp: string, now: real, outcome: WriteOutcome,
                            listing: seq<string>, removeOk: bool)
      requires forall x :: x in listing ==> x == MemName(stamp) || x in files
      modifies this
      ensures files == AfterStore(old(files), MemName(stamp), text, now, outcome, listing, removeOk)
    {
      var name := MemName(stamp);
      match outcome {
        case NotCreated =>
          return;
        case Truncated(kept) =>
          files := files[name := Record(Text.Prefix(text, kept), now)];
          return;
        case Written =>
      }
      files := files[name := Record(text, now)];
      var victim := Victim(listing, files);
      if victim.Some? && removeOk {
        files := files - {victim.value};
      }
    }

    /** The loop both decay passes share: visits each file of `regs` in turn;
        returns how many values of the random stream were drawn. */
    method RunPass(regs: seq<string>, rng: nat -> Coin, policy: Policy, io: string -> IoOutcome)
      returns (drawn: nat)
      requires forall k :: 0 <= k < |regs| ==> regs[k] in files
      modifies this
      ensures PassState(files, drawn) == Pass(old(files), regs, rng, policy, io)
    {
      drawn := 0;
      var i := 0;
      while i < |regs|
        invariant 0 <= i <= |regs|
        invariant files.Keys == old(files).Keys
        invariant PassState(files, drawn) == PassPrefix(old(files), regs, i, rng, policy, io)
      {
        drawn := VisitFile(regs[i], drawn, rng, policy, io);
        PassKeys(old(files), regs, i + 1, rng, policy, io);
        i := i + 1;
      }
    }

    /** One iteration of a decay pass, on file `name`, with `drawn` values of
        the random stream used so far: draws the file coin and, when it is below
        the selection chance, reads the file, draws one coin per character and
        writes back the characters whose coin is above the deletion rate. */
    method VisitFile(name: string, drawn: nat, rng: nat -> Coin, policy: Policy, io: string -> IoOutcome)
      returns (next: nat)
      requires name in files
      modifies this
      ensures PassState(files, next) == Step(PassState(old(files), drawn), name, rng, policy, io)
    {
      var rec := files[name];
      next := drawn + 1;
      if rng(drawn) < FileChance(policy, rec) && io(name) != ReadFails {
        var corrupted := CorruptContent(rec.content, rng, drawn + 1, CharRate(policy, rec));
        next := next + |rec.content|;
        if io(name) == IoOk {
          files := files[name := rec.(content := corrupted)];
        }
      }
    }

    /** `simulate_memory_decay()`: the uniform pass over the regular files of
        `listing`, the directory enumeration. Core and non-`.txt` files are
        never touched. */
    method SimulateMemoryDecay(listing: seq<string>, rng: nat -> Coin, io: string -> IoOutcome)
      returns (drawn: nat)
      requires forall x :: x in listing ==> x in files
      modifies this
      ensures PassState(files, drawn) == Pass(old(files), RegularFiles(listing), rng, Uniform, io)
      ensures files.Keys == old(files).Keys
      ensures forall x :: x in old(files) && !IsRegular(x) ==> files[x] == old(files)[x]
    {
      ProtectedUntouched(files, listing, rng, Uniform, io);
      if TxtFiles(listing) == [] {
        return 0;
      }
      PartitionOfListing(listing);
      drawn := RunPass(RegularFiles(listing), rng, Uniform, io);
    }

    /** `age_memories_over_time()` at wall-clock time `now`: the aging pass over
        the regular files of `listing`, the directory enumeration. Core and
        non-`.txt` files are never touched. */
    method AgeMemoriesOverTime(listing: seq<string>, now: real, rng: nat -> Coin, io: string -> IoOutcome)
      returns (drawn: nat)
      requires forall x :: x in listing ==> x in files
      modifies this
      ensures PassState(files, drawn) == Pass(old(files), RegularFiles(listing), rng, Aging(now), io)
      ensures files.Keys == old(files).Keys
      ensures forall x :: x in old(files) && !IsRegular(x) ==> files[x] == old(files)[x]
    {
      ProtectedUntouched(files, listing, rng, Aging(now), io);
      PartitionOfListing(listing);
      drawn := RunPass(RegularFiles(listing), rng, Aging(now), io);
    }

    /** `load_memories_with_priority(n=3)`: the core record chosen by `coreChoice`
        (read with outcome `coreFault`), then the regular records drawn by
        `choose` (the `i`-th read with outcome `faults(i)`), each followed by a
        line break, stripped. */
    method LoadMemoriesWithPriority(listing: seq<string>, coreChoice: nat, coreFault: Option<Fault>,
                                    choose: nat -> nat, faults: nat -> Option<Fault>, n: int := 3)
      returns (context: string)
      requires forall x :: x in listing ==> x in files
      ensures context == Context(files, listing, n, coreChoice, coreFault, choose, faults)
    {
      if TxtFiles(listing) == [] {
        return "";
      }
      var sel := Select(listing, n, coreChoice, choose);
      ListedIsReadable(files, listing, n, coreChoice, choose);
      var acc := ReadSelection(sel, coreFault, faults);
      context := Text.Strip(acc);
    }

    /** The reads of one load, in order: the core record of `sel`, if any,
        then each regular draw, each contributing its text or a placeholder
        and a line break. */
    method ReadSelection(sel: Selection, coreFault: Option<Fault>, faults: nat -> Option<Fault>)
      returns (acc: string)
      requires Readable(files, sel)
      ensures acc == Concat(Lines(Blocks(files, sel, coreFault, faults)))
    {
      acc := "";
      if sel.core.Some? {
        acc := Render(CoreBlock(files[sel.core.value].content, coreFault));
      }
      CoreLine(files, sel.core, coreFault, faults);
      assert sel.picks[..0] == [];
      var k := 0;
      while k < |sel.picks|
        invariant 0 <= k <= |sel.picks|
        invariant Readable(files, Selection(sel.core, sel.picks[..k]))
        invariant acc == Concat(Lines(Blocks(files, Selection(sel.core, sel.picks[..k]), coreFault, faults)))
      {
        LoadStep(files, sel, k, coreFault, faults);
        acc := acc + Render(RegularBlock(files[sel.picks[k]].content, faults(k)));
        k := k + 1;
      }
      assert sel.picks[..k] == sel.picks;
    }

    /** `load_random_memories(n=3)`: the same load as `LoadMemoriesWithPriority`. */
    method LoadRandomMemories(listing: seq<string>, coreChoice: nat, coreFault: Option<Fault>,
                              choose: nat -> nat, faults: nat -> Option<Fault>, n: int := 3)
      returns (context: string)
      requires forall x :: x in listing ==> x in files
      ensures context == Context(files, listing, n, coreChoice, coreFault, choose, faults)
    {
      context := LoadMemoriesWithPriority(listing, coreChoice, coreFault, choose, faults, n);
    }
  }
}
