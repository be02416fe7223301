/** Priority loading of a context string: one randomly chosen core record when
    any exists, then `min(remaining, |regular|)` regular records drawn with
    replacement, each block followed by a line break, and the whole stripped
    of surrounding whitespace. A read that fails contributes a placeholder
    naming the failure instead of the file's text.

    The load is split in two: which files are read (`Select`, which depends on
    the names only) and what the reads contribute (`Blocks`). */
module Loader {
  import opened Text
  import opened Wrappers
  import opened Storage

  /** Why a read failed, with the exception's message (`str(e)`). */
  datatype Fault = DecodeError(msg: string) | NotFound(msg: string) | OtherError(msg: string)

  /** How much of an exception's message a placeholder shows. */
  const MESSAGE_LIMIT: nat := 30

  /** Text that ends in a line break. */
  predicate IsLine(b: string) {
    |b| > 0 && b[|b| - 1] == '\n'
  }

  /** What one read contributes to the context, before it is rendered as text. */
  datatype Block =
    | CoreContent(content: string)      // the chosen core record's text
    | CoreFailure(msg: string)        // any failure reading it
    | MemoryText(content: string)     // a drawn regular record's text
    | EncodingError                   // the record is not valid UTF-8
    | Missing                         // the record is gone
    | MemoryFailure(msg: string)      // any other failure reading it

  /** The block for the chosen core record: its text exactly when the read
      does not fail, and never a regular record's block. */
  function CoreBlock(content: string, fault: Option<Fault>): (r: Block)
    ensures r.CoreContent? || r.CoreFailure?
    ensures r == CoreContent(content) <==> fault.None?
  {
    match fault
    case None => CoreContent(content)
    case Some(f) => CoreFailure(f.msg)
  }

  /** The block for one drawn regular record: its text exactly when the read
      does not fail, else a placeholder that depends on the kind of failure;
      never a core record's block. */
  function RegularBlock(content: string, fault: Option<Fault>): (r: Block)
    ensures !r.CoreContent? && !r.CoreFailure?
    ensures r == MemoryText(content) <==> fault.None?
  {
    match fault
    case None => MemoryText(content)
    case Some(DecodeError(_)) => EncodingError
    case Some(NotFound(_)) => Missing
    case Some(OtherError(msg)) => MemoryFailure(msg)
  }

  /** The text a block appends: the record's text, or a bracketed placeholder
      showing at most the first 30 characters of the message; always followed
      by a line break. */
  function Render(b: Block): (r: string)
    ensures IsLine(r)
  {
    match b
    case CoreContent(content) => content + "\n"
    case CoreFailure(msg) => "[CORRUPTED CORE MEMORY - " + Prefix(msg, MESSAGE_LIMIT) + "]\n"
    case MemoryText(content) => content + "\n"
    case EncodingError => "[CORRUPTED MEMORY BLOCK - ENCODING ERROR]\n"
    case Missing => "[MISSING MEMORY BLOCK]\n"
    case MemoryFailure(msg) => "[CORRUPTED MEMORY BLOCK - " + Prefix(msg, MESSAGE_LIMIT) + "]\n"
  }

  /** The element at index `k` modulo the length of `xs`: how an oracle value
      picks one element. */
  function Pick(xs: seq<string>, k: nat): (x: string)
    requires xs != []
    ensures x in xs
    decreases k
  {
    if k < |xs| then xs[k] else Pick(xs, k - |xs|)
  }

  /** Slots left for regular records: `n - 1` when a core record was taken, else `n`. */
  function RemainingSlots(n: int, listing: seq<string>): int {
    if CoreFiles(listing) != [] then n - 1 else n
  }

  /** How many regular records are drawn: some exactly when there are regular
      files and slots left, never more than either, and then as many as the
      smaller of the two permits. */
  function DrawCount(n: int, listing: seq<string>): (r: nat)
    ensures r <= |RegularFiles(listing)|
    ensures r <= RemainingSlots(n, listing) || r == 0
    ensures r > 0 ==> r == RemainingSlots(n, listing) || r == |RegularFiles(listing)|
    ensures r > 0 <==> RegularFiles(listing) != [] && RemainingSlots(n, listing) > 0
  {
    var regs := RegularFiles(listing);
    var remaining := RemainingSlots(n, listing);
    if regs != [] && remaining > 0 then
      (if remaining < |regs| then remaining else |regs|)
    else 0
  }

  /** The first `count` draws with replacement from `regs`: the `i`-th is the
      element at index `choose(i)` modulo the count. */
  function Choices(regs: seq<string>, count: nat, choose: nat -> nat): (picks: seq<string>)
    requires regs != [] || count == 0
    ensures |picks| == count
    ensures forall i :: 0 <= i < count ==> picks[i] in regs
  {
    if count == 0 then [] else Choices(regs, count - 1, choose) + [Pick(regs, choose(count - 1))]
  }

  /** The files a load reads: the core record chosen, if any, and the regular
      records drawn, in order. */
  datatype Selection = Selection(core: Option<string>, picks: seq<string>)

  /** `random.choice(core_files)` then `random.choices(regular_files, k=...)`,
      as far as they depend on the listing. */
  function Select(listing: seq<string>, n: int, coreChoice: nat, choose: nat -> nat): (sel: Selection)
    ensures sel.core.Some? <==> CoreFiles(listing) != []
    ensures sel.core.Some? ==> sel.core.value in listing && IsTxt(sel.core.value) && IsCore(sel.core.value)
    ensures |sel.picks| == DrawCount(n, listing)
    ensures forall i :: 0 <= i < |sel.picks| ==> sel.picks[i] in listing && IsRegular(sel.picks[i])
  {
    PartitionOfListing(listing);
    var cores := CoreFiles(listing);
    var core := if cores == [] then None else Some(Pick(cores, coreChoice));
    Selection(core, Choices(RegularFiles(listing), DrawCount(n, listing), choose))
  }

  /** Every selected file is a key of `d`. */
  predicate Readable(d: Directory, sel: Selection) {
    && (sel.core.Some? ==> sel.core.value in d)
    && forall i :: 0 <= i < |sel.picks| ==> sel.picks[i] in d
  }

  lemma ListedIsReadable(d: Directory, listing: seq<string>, n: int, coreChoice: nat, choose: nat -> nat)
    requires forall x :: x in listing ==> x in d
    ensures Readable(d, Select(listing, n, coreChoice, choose))
  {
  }

  /** The blocks of one load: the core block, if a core record was chosen, then
      one block per regular draw; the `i`-th regular read fails with `faults(i)`. */
  function Blocks(d: Directory, sel: Selection, coreFault: Option<Fault>,
                  faults: nat -> Option<Fault>): seq<Block>
    requires Readable(d, sel)
  {
    var core := match sel.core
      case None => []
      case Some(c) => [CoreBlock(d[c].content, coreFault)];
    core + seq(|sel.picks|, i requires 0 <= i < |sel.picks| => RegularBlock(d[sel.picks[i]].content, faults(i)))
  }

  /** The text of each block. */
  function Lines(blocks: seq<Block>): (r: seq<string>)
    ensures |r| == |blocks|
  {
    seq(|blocks|, i requires 0 <= i < |blocks| => Render(blocks[i]))
  }

  /** Texts appended one after another. */
  function Concat(lines: seq<string>): string {
    if lines == [] then "" else Concat(lines[..|lines| - 1]) + lines[|lines| - 1]
  }

  /** The string `load_memories_with_priority(n)` returns: empty for a
      directory without `.txt` files, and never beginning or ending with
      whitespace. */
  function Context(d: Directory, listing: seq<string>, n: int, coreChoice: nat, coreFault: Option<Fault>,
                   choose: nat -> nat, faults: nat -> Option<Fault>): (r: string)
    requires forall x :: x in listing ==> x in d
    ensures TxtFiles(listing) == [] ==> r == ""
    ensures r == [] || (!IsSpace(r[0]) && !IsSpace(r[|r| - 1]))
  {
    if TxtFiles(listing) == [] then ""
    else
      var sel := Select(listing, n, coreChoice, choose);
      ListedIsReadable(d, listing, n, coreChoice, choose);
      Strip(Concat(Lines(Blocks(d, sel, coreFault, faults))))
  }

  lemma {:induction false} ConcatAppend(a: seq<string>, b: seq<string>)
    ensures Concat(a + b) == Concat(a) + Concat(b)
  {
    if b == [] {
      assert a + b == a;
    } else {
      var b' := b[..|b| - 1];
      assert (a + b)[..|a + b| - 1] == a + b';
      ConcatAppend(a, b');
    }
  }

  /** One more regular draw appends its block. */
  lemma BlocksAppend(d: Directory, core: Option<string>, picks: seq<string>, x: string,
                     coreFault: Option<Fault>, faults: nat -> Option<Fault>)
    requires Readable(d, Selection(core, picks)) && x in d
    ensures Readable(d, Selection(core, picks + [x]))
    ensures Blocks(d, Selection(core, picks + [x]), coreFault, faults)
         == Blocks(d, Selection(core, picks), coreFault, faults) + [RegularBlock(d[x].content, faults(|picks|))]
  {
    assert forall i :: 0 <= i < |picks| ==> (picks + [x])[i] == picks[i];
  }

  /** The text of one more block follows the text of those before it. */
  lemma LinesAppend(blocks: seq<Block>, b: Block)
    ensures Concat(Lines(blocks + [b])) == Concat(Lines(blocks)) + Render(b)
  {
    assert Lines(blocks + [b]) == Lines(blocks) + [Render(b)];
    assert (Lines(blocks) + [Render(b)])[..|blocks|] == Lines(blocks);
  }

  /** Before any regular draw the text is the core block's line, if any. */
  lemma CoreLine(d: Directory, core: Option<string>, coreFault: Option<Fault>, faults: nat -> Option<Fault>)
    requires core.Some? ==> core.value in d
    ensures Readable(d, Selection(core, []))
    ensures Concat(Lines(Blocks(d, Selection(core, []), coreFault, faults)))
         == if core.Some? then Render(CoreBlock(d[core.value].content, coreFault)) else ""
  {
    var b := Blocks(d, Selection(core, []), coreFault, faults);
    if core.Some? {
      assert b == [CoreBlock(d[core.value].content, coreFault)];
      assert Lines(b) == [Render(b[0])];
      assert Lines(b)[..0] == [];
    } else {
      assert b == [];
    }
  }

  /** The text after `k + 1` draws is the text after `k` draws followed by the
      line of draw `k`. */
  lemma LoadStep(d: Directory, sel: Selection, k: nat, coreFault: Option<Fault>, faults: nat -> Option<Fault>)
    requires Readable(d, sel) && k < |sel.picks|
    ensures Readable(d, Selection(sel.core, sel.picks[..k]))
    ensures Readable(d, Selection(sel.core, sel.picks[..k + 1]))
    ensures Concat(Lines(Blocks(d, Selection(sel.core, sel.picks[..k + 1]), coreFault, faults)))
         == Concat(Lines(Blocks(d, Selection(sel.core, sel.picks[..k]), coreFault, faults)))
            + Render(RegularBlock(d[sel.picks[k]].content, faults(k)))
  {
    var x := sel.picks[k];
    assert sel.picks[..k + 1] == sel.picks[..k] + [x];
    assert forall i :: 0 <= i < k ==> sel.picks[..k][i] == sel.picks[i];
    BlocksAppend(d, sel.core, sel.picks[..k], x, coreFault, faults);
    LinesAppend(Blocks(d, Selection(sel.core, sel.picks[..k]), coreFault, faults),
                RegularBlock(d[x].content, faults(k)));
  }

  /** A load is the chosen core record's block, when there is one, followed by
      the `j`-th regular draw's block at position `j` after it. */
  lemma BlocksInOrder(d: Directory, sel: Selection, coreFault: Option<Fault>, faults: nat -> Option<Fault>)
    requires Readable(d, sel)
    ensures var b := Blocks(d, sel, coreFault, faults);
      var off := if sel.core.Some? then 1 else 0;
      && |b| == off + |sel.picks|
      && (sel.core.Some? ==> b[0] == CoreBlock(d[sel.core.value].content, coreFault))
      && forall j :: 0 <= j < |sel.picks| ==> b[off + j] == RegularBlock(d[sel.picks[j]].content, faults(j))
  {
    var core: seq<Block> := if sel.core.Some? then [CoreBlock(d[sel.core.value].content, coreFault)] else [];
    var rest := seq(|sel.picks|, i requires 0 <= i < |sel.picks| => RegularBlock(d[sel.picks[i]].content, faults(i)));
    var b := Blocks(d, sel, coreFault, faults);
    assert b == core + rest;
    forall j | 0 <= j < |sel.picks|
      ensures b[|core| + j] == RegularBlock(d[sel.picks[j]].content, faults(j))
    {
      assert b[|core| + j] == rest[j];
    }
  }

  /** A failed read contributes a bracketed placeholder line that does not
      depend on the record's text and shows at most `MESSAGE_LIMIT` characters
      of the message. */
  lemma FailurePlaceholder(content: string, other: string, f: Fault)
    ensures var r := Render(RegularBlock(content, Some(f)));
      && r == Render(RegularBlock(other, Some(f)))
      && r[0] == '[' && r[|r| - 2] == ']'
      && |r| <= 28 + MESSAGE_LIMIT
  {
    var r := Render(RegularBlock(content, Some(f)));
    match f
    case DecodeError(_) =>
      assert r == "[CORRUPTED MEMORY BLOCK - ENCODING ERROR]\n";
    case NotFound(_) =>
      assert r == "[MISSING MEMORY BLOCK]\n";
    case OtherError(msg) =>
      var shown := Prefix(msg, MESSAGE_LIMIT);
      assert r == "[CORRUPTED MEMORY BLOCK - " + shown + "]\n";
      assert r[|r| - 2] == ']';
  }

  /** When the chosen core record reads without failure its text, with its line
      break, opens the unstripped context. */
  lemma CoreComesFirst(d: Directory, sel: Selection, faults: nat -> Option<Fault>)
    requires Readable(d, sel) && sel.core.Some?
    ensures StartsWith(Concat(Lines(Blocks(d, sel, None, faults))), d[sel.core.value].content + "\n")
  {
    var b := Blocks(d, sel, None, faults);
    BlocksInOrder(d, sel, None, faults);
    assert Lines(b)[0] == Render(b[0]);
    ConcatStartsWithFirst(Lines(b));
  }

  lemma ConcatStartsWithFirst(lines: seq<string>)
    requires lines != []
    ensures StartsWith(Concat(lines), lines[0])
  {
    assert lines == [lines[0]] + lines[1..];
    ConcatAppend([lines[0]], lines[1..]);
    assert [lines[0]][..0] == [];
    assert Concat([lines[0]]) == lines[0];
    assert (lines[0] + Concat(lines[1..]))[..|lines[0]|] == lines[0];
  }

  /** Exactly one core record is read iff the listing has core files; then as
      many regular records are drawn as `DrawCount` says, each a listed regular
      file (the draws may repeat a file). */
  lemma SelectionShape(listing: seq<string>, n: int, coreChoice: nat, choose: nat -> nat)
    ensures var sel := Select(listing, n, coreChoice, choose);
      && (sel.core.Some? <==> exists c :: c in listing && IsTxt(c) && IsCore(c))
      && (sel.core.Some? ==> sel.core.value in CoreFiles(listing))
      && |sel.picks| <= |RegularFiles(listing)|
      && forall i :: 0 <= i < |sel.picks| ==> sel.picks[i] in RegularFiles(listing)
  {
    PartitionOfListing(listing);
    var sel := Select(listing, n, coreChoice, choose);
    if CoreFiles(listing) != [] {
      assert CoreFiles(listing)[0] in CoreFiles(listing);
    }
  }

  /** With at least one core file and at least `n - 1` regular files, a load of
      `n >= 1` blocks reads exactly one core record and draws `n - 1` regular ones. */
  lemma FullLoad(listing: seq<string>, n: int, coreChoice: nat, choose: nat -> nat)
    requires CoreFiles(listing) != [] && n >= 1 && |RegularFiles(listing)| >= n - 1
    ensures var sel := Select(listing, n, coreChoice, choose);
      sel.core.Some? && |sel.picks| == n - 1
  {
  }

  /** A directory with one core file and no regular file loads as that file's
      text alone, stripped, whatever `n` is. */
  lemma CoreOnlyLoad(d: Directory, listing: seq<string>, n: int, coreChoice: nat,
                     choose: nat -> nat, faults: nat -> Option<Fault>, core: string)
    requires forall x :: x in listing ==> x in d
    requires CoreFiles(listing) == [core] && RegularFiles(listing) == []
    ensures Context(d, listing, n, coreChoice, None, choose, faults) == Strip(d[core].content)
  {
    var sel := Select(listing, n, coreChoice, choose);
    ListedIsReadable(d, listing, n, coreChoice, choose);
    assert sel == Selection(Some(core), []);
    CoreLine(d, Some(core), None, faults);
    var lines := Lines(Blocks(d, sel, None, faults));
    assert Concat(lines) == d[core].content + "\n";
    assert TxtFiles(listing) != [] by {
      PartitionOfListing(listing);
    }
    assert Context(d, listing, n, coreChoice, None, choose, faults) == Strip(Concat(lines));
    StripDropsTrailingSpace(d[core].content, '\n');
  }

  /** With no core file and at least `n >= 1` regular files, a load is `n`
      regular blocks drawn in order, repetitions allowed. */
  lemma RegularOnlyLoad(d: Directory, listing: seq<string>, n: int, coreChoice: nat, coreFault: Option<Fault>,
                        choose: nat -> nat, faults: nat -> Option<Fault>)
    requires forall x :: x in listing ==> x in d
    requires CoreFiles(listing) == [] && n >= 1 && |RegularFiles(listing)| >= n
    ensures var sel := Select(listing, n, coreChoice, choose);
      Readable(d, sel) &&
      var b := Blocks(d, sel, coreFault, faults);
      && sel.core == None && |b| == n && |sel.picks| == n
      && forall i :: 0 <= i < n ==> b[i] == RegularBlock(d[sel.picks[i]].content, faults(i))
  {
    var sel := Select(listing, n, coreChoice, choose);
    ListedIsReadable(d, listing, n, coreChoice, choose);
    BlocksInOrder(d, sel, coreFault, faults);
    var b := Blocks(d, sel, coreFault, faults);
    forall i | 0 <= i < n
      ensures b[i] == RegularBlock(d[sel.picks[i]].content, faults(i))
    {
      assert b[0 + i] == RegularBlock(d[sel.picks[i]].content, faults(i));
    }
  }
}
