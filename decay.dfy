/** The two decay passes over the regular files of the directory. Both walk
    the regular files in listing order; for each one they draw a file coin
    from the random stream and, when it is below the file's selection chance,
    read the file, draw one coin per character, delete the characters whose
    coin is not above the deletion rate and write the result back. The
    uniform pass uses fixed chances; the aging pass derives them from the
    file's age. */
module Decay {
  import opened Storage
  import opened Corruption

  /** Which pass runs: uniform decay, or aging at wall-clock time `now`. */
  datatype Policy = Uniform | Aging(now: real)

  /** What happens to the read-then-rewrite of one selected file. */
  datatype IoOutcome = IoOk | ReadFails | WriteFails

  /** Chance that a file is selected, given its record: 0.05 in the uniform
      pass; in the aging pass at least 0.02 for a file not created in the
      future, and never above 0.3. */
  function FileChance(policy: Policy, rec: Record): (r: real)
    ensures policy.Uniform? ==> r == FILE_CORRUPTION_CHANCE
    ensures policy.Aging? && rec.ctime <= policy.now ==> 0.02 <= r
    ensures r <= 0.3
  {
    match policy
    case Uniform => FILE_CORRUPTION_CHANCE
    case Aging(now) => CorruptionChance(AgeDays(now, rec.ctime))
  }

  /** Chance that a character of a selected file is deleted: 0.1 in the
      uniform pass; in the aging pass at least 0.05 for a file not created in
      the future, and never above 0.4. */
  function CharRate(policy: Policy, rec: Record): (r: real)
    ensures policy.Uniform? ==> r == CHAR_CORRUPTION_RATE
    ensures policy.Aging? && rec.ctime <= policy.now ==> 0.05 <= r
    ensures r <= 0.4
  {
    match policy
    case Uniform => CHAR_CORRUPTION_RATE
    case Aging(now) => CorruptionRate(AgeDays(now, rec.ctime))
  }

  /** `n` consecutive values of the random stream, starting at draw `start`. */
  function Draws(rng: nat -> Coin, start: nat, n: nat): (s: seq<real>)
    ensures |s| == n
    ensures forall i :: 0 <= i < n ==> s[i] == rng(start + i)
  {
    seq(n, i requires 0 <= i < n => rng(start + i))
  }

  /** The directory part-way through a pass and how many values of the random
      stream have been drawn so far. */
  datatype PassState = PassState(dir: Directory, drawn: nat)

  /** One iteration of the pass, on file `name`: names are neither added nor
      removed, and a present file always costs its file coin. */
  function Step(st: PassState, name: string, rng: nat -> Coin, policy: Policy,
                io: string -> IoOutcome): (r: PassState)
    ensures r.dir.Keys == st.dir.Keys
    ensures name in st.dir ==> r.drawn > st.drawn
    ensures name !in st.dir ==> r == st
  {
    if name !in st.dir then st  // a listed file is always present
    else
      var rec := st.dir[name];
      var k := st.drawn;
      if rng(k) >= FileChance(policy, rec) || io(name) == ReadFails then PassState(st.dir, k + 1)
      else
        var n := |rec.content|;
        var corrupted := Erode(rec.content, Draws(rng, k + 1, n), CharRate(policy, rec));
        var dir := if io(name) == IoOk then st.dir[name := rec.(content := corrupted)] else st.dir;
        PassState(dir, k + 1 + n)
  }

  /** The state after the first `j` files of `regs`. */
  function PassPrefix(d: Directory, regs: seq<string>, j: nat, rng: nat -> Coin,
                      policy: Policy, io: string -> IoOutcome): PassState
    requires j <= |regs|
  {
    if j == 0 then PassState(d, 0)
    else Step(PassPrefix(d, regs, j - 1, rng, policy, io), regs[j - 1], rng, policy, io)
  }

  /** A whole pass over `regs`: no file is created or deleted, and a pass
      over no files draws nothing. */
  function Pass(d: Directory, regs: seq<string>, rng: nat -> Coin, policy: Policy,
                io: string -> IoOutcome): (r: PassState)
    ensures r.dir.Keys == d.Keys
    ensures regs == [] ==> r == PassState(d, 0)
  {
    PassKeys(d, regs, |regs|, rng, policy, io);
    PassPrefix(d, regs, |regs|, rng, policy, io)
  }

  /** One step touches only its own file, keeps its creation time, only deletes
      characters, and draws at least one value when the file exists. */
  lemma StepOnlyErodes(st: PassState, name: string, rng: nat -> Coin, policy: Policy,
                       io: string -> IoOutcome)
    ensures var r := Step(st, name, rng, policy, io);
      && r.dir.Keys == st.dir.Keys
      && (forall x :: x in st.dir && x != name ==> r.dir[x] == st.dir[x])
      && (name in st.dir ==>
            && r.drawn > st.drawn
            && r.dir[name].ctime == st.dir[name].ctime
            && IsSubsequence(r.dir[name].content, st.dir[name].content))
  {
    if name in st.dir {
      var rec := st.dir[name];
      var k := st.drawn;
      var r := Step(st, name, rng, policy, io);
      if rng(k) >= FileChance(policy, rec) || io(name) == ReadFails || io(name) == WriteFails {
        assert r.dir == st.dir;
        SubsequenceReflexive(rec.content);
      } else {
        var corrupted := Erode(rec.content, Draws(rng, k + 1, |rec.content|), CharRate(policy, rec));
        assert r.dir == st.dir[name := rec.(content := corrupted)];
        ErodeIsSubsequence(rec.content, Draws(rng, k + 1, |rec.content|), CharRate(policy, rec));
      }
    }
  }

  /** A pass changes no name set. */
  lemma {:induction false} PassKeys(d: Directory, regs: seq<string>, j: nat, rng: nat -> Coin,
                                    policy: Policy, io: string -> IoOutcome)
    requires j <= |regs|
    ensures PassPrefix(d, regs, j, rng, policy, io).dir.Keys == d.Keys
  {
    if j > 0 {
      PassKeys(d, regs, j - 1, rng, policy, io);
      StepOnlyErodes(PassPrefix(d, regs, j - 1, rng, policy, io), regs[j - 1], rng, policy, io);
    }
  }

  /** Steps `i` to `m` leave alone every file that is not among them. */
  lemma {:induction false} PassSegmentFrame(d: Directory, regs: seq<string>, i: nat, m: nat,
                                            rng: nat -> Coin, policy: Policy,
                                            io: string -> IoOutcome, x: string)
    requires i <= m <= |regs|
    requires forall k :: i <= k < m ==> regs[k] != x
    ensures var a := PassPrefix(d, regs, i, rng, policy, io).dir;
            var b := PassPrefix(d, regs, m, rng, policy, io).dir;
            (x in a <==> x in b) && (x in a ==> b[x] == a[x])
  {
    if m > i {
      PassSegmentFrame(d, regs, i, m - 1, rng, policy, io, x);
      StepOnlyErodes(PassPrefix(d, regs, m - 1, rng, policy, io), regs[m - 1], rng, policy, io);
    }
  }

  /** Over a whole pass every file keeps its creation time and its new content
      is a subsequence of the old: characters are only ever deleted. */
  lemma {:induction false} PassOnlyDeletes(d: Directory, regs: seq<string>, j: nat, rng: nat -> Coin,
                                           policy: Policy, io: string -> IoOutcome)
    requires j <= |regs|
    ensures var r := PassPrefix(d, regs, j, rng, policy, io);
      && r.dir.Keys == d.Keys
      && forall x :: x in d ==>
           && r.dir[x].ctime == d[x].ctime
           && IsSubsequence(r.dir[x].content, d[x].content)
           && |r.dir[x].content| <= |d[x].content|
  {
    var r := PassPrefix(d, regs, j, rng, policy, io);
    if j == 0 {
      forall x | x in d
        ensures IsSubsequence(r.dir[x].content, d[x].content)
      {
        SubsequenceReflexive(d[x].content);
      }
    } else {
      var p := PassPrefix(d, regs, j - 1, rng, policy, io);
      PassOnlyDeletes(d, regs, j - 1, rng, policy, io);
      StepOnlyErodes(p, regs[j - 1], rng, policy, io);
      forall x | x in d
        ensures IsSubsequence(r.dir[x].content, d[x].content)
      {
        if x == regs[j - 1] {
          SubsequenceTransitive(r.dir[x].content, p.dir[x].content, d[x].content);
        }
      }
    }
    forall x | x in d
      ensures |r.dir[x].content| <= |d[x].content|
    {
      SubsequenceNotLonger(r.dir[x].content, d[x].content);
    }
  }

  /** A pass over the regular files of a listing never touches a core file or a
      non-`.txt` file. */
  lemma ProtectedUntouched(d: Directory, listing: seq<string>, rng: nat -> Coin, policy: Policy,
                           io: string -> IoOutcome)
    ensures var r := Pass(d, RegularFiles(listing), rng, policy, io);
      && r.dir.Keys == d.Keys
      && forall x :: x in d && !IsRegular(x) ==> r.dir[x] == d[x]
  {
    var regs := RegularFiles(listing);
    PassKeys(d, regs, |regs|, rng, policy, io);
    PartitionOfListing(listing);
    forall x | x in d && !IsRegular(x)
      ensures Pass(d, regs, rng, policy, io).dir[x] == d[x]
    {
      assert forall k :: 0 <= k < |regs| ==> regs[k] in regs;
      PassSegmentFrame(d, regs, 0, |regs|, rng, policy, io, x);
    }
  }

  /** What the pass makes of a file with record `rec` that it reaches at draw
      index `c`: when the file coin `rng(c)` is below the selection chance and
      the read and the write succeed, the record with each character kept iff
      its own coin is above the deletion rate; otherwise the record unchanged. */
  function Fate(rec: Record, c: nat, name: string, rng: nat -> Coin, policy: Policy,
                io: string -> IoOutcome): (r: Record)
    ensures r.ctime == rec.ctime
    ensures rng(c) >= FileChance(policy, rec) || io(name) != IoOk ==> r == rec
  {
    if rng(c) < FileChance(policy, rec) && io(name) == IoOk
    then rec.(content := Erode(rec.content, Draws(rng, c + 1, |rec.content|), CharRate(policy, rec)))
    else rec
  }

  /** The fate of the `j`-th listed file: with `c` the draw index when the pass
      reaches it, the whole pass leaves it as `Fate` says. */
  lemma FileFate(d: Directory, regs: seq<string>, j: nat, rng: nat -> Coin, policy: Policy,
                 io: string -> IoOutcome)
    requires Distinct(regs) && j < |regs| && regs[j] in d
    ensures var r := Pass(d, regs, rng, policy, io);
      && regs[j] in r.dir
      && r.dir[regs[j]] == Fate(d[regs[j]], PassPrefix(d, regs, j, rng, policy, io).drawn,
                                regs[j], rng, policy, io)
  {
    var name := regs[j];
    var a := PassPrefix(d, regs, j, rng, policy, io);
    var b := PassPrefix(d, regs, j + 1, rng, policy, io);
    assert b == Step(a, name, rng, policy, io);
    OnlyOccurrence(regs, j);
    PassSegmentFrame(d, regs, 0, j, rng, policy, io, name);
    StepFate(a, name, rng, policy, io);
    PassSegmentFrame(d, regs, j + 1, |regs|, rng, policy, io, name);
  }

  /** In a list without repetitions an element occurs at one index only. */
  lemma OnlyOccurrence(regs: seq<string>, j: nat)
    requires Distinct(regs) && j < |regs|
    ensures forall k :: 0 <= k < |regs| && k != j ==> regs[k] != regs[j]
  {
  }

  /** What one step does to the file it visits. */
  lemma StepFate(st: PassState, name: string, rng: nat -> Coin, policy: Policy, io: string -> IoOutcome)
    requires name in st.dir
    ensures var r := Step(st, name, rng, policy, io);
      name in r.dir && r.dir[name] == Fate(st.dir[name], st.drawn, name, rng, policy, io)
  {
  }

  /** An aging pass selects and erodes an older file at least as eagerly as a
      newer one, and never with more than the caps 0.3 and 0.4. */
  lemma AgingChancesBounded(now: real, rec: Record, older: Record)
    requires rec.ctime <= now && older.ctime <= rec.ctime
    ensures 0.02 <= FileChance(Aging(now), rec) <= FileChance(Aging(now), older) <= 0.3
    ensures 0.05 <= CharRate(Aging(now), rec) <= CharRate(Aging(now), older) <= 0.4
  {
    AgeDaysAntitone(now, rec.ctime, older.ctime);
    AgingMonotone(AgeDays(now, rec.ctime), AgeDays(now, older.ctime));
  }
}
