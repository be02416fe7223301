/** The pure part of decay: the per-character deletion filter and the two
    age formulas that set how likely and how severe aging corruption is. */
module Corruption {

  /** A value of Python's `random.random()`: a real in [0, 1). */
  type Coin = r: real | 0.0 <= r < 1.0

  /** Uniform decay: chance that a regular file is selected in one pass. */
  const FILE_CORRUPTION_CHANCE: real := 0.05
  /** Uniform decay: chance that a character of a selected file is deleted. */
  const CHAR_CORRUPTION_RATE: real := 0.1
  const SECONDS_PER_DAY: real := 86400.0

  /** `''.join(c if coin > rate else '' for c in content)`, with the i-th
      character's coin given as `coins[i]`. */
  function Erode(content: string, coins: seq<real>, rate: real): (r: string)
    requires |coins| == |content|
    ensures |r| <= |content|
  {
    if content == [] then []
    else
      var n := |content| - 1;
      Erode(content[..n], coins[..n], rate) + (if coins[n] > rate then [content[n]] else [])
  }

  /** The positions whose coin is above `rate`, in increasing order. */
  function KeptPositions(coins: seq<real>, rate: real): (k: seq<int>)
    ensures forall j :: 0 <= j < |k| ==> 0 <= k[j] < |coins| && coins[k[j]] > rate
    ensures forall j, j' :: 0 <= j < j' < |k| ==> k[j] < k[j']
  {
    if coins == [] then []
    else
      var n := |coins| - 1;
      var p := KeptPositions(coins[..n], rate);
      var k := p + (if coins[n] > rate then [n] else []);
      assert forall j :: 0 <= j < |p| ==> k[j] == p[j] && coins[..n][p[j]] == coins[p[j]];
      k
  }

  /** Every position whose coin is above the rate is kept. */
  lemma {:induction false} KeptPositionsComplete(coins: seq<real>, rate: real, i: int)
    requires 0 <= i < |coins| && coins[i] > rate
    ensures i in KeptPositions(coins, rate)
  {
    var n := |coins| - 1;
    if i < n {
      assert coins[..n][i] == coins[i];
      KeptPositionsComplete(coins[..n], rate, i);
    }
  }

  /** Erosion keeps exactly the characters whose coin is above the rate, in order. */
  lemma {:induction false} ErodeKeepsPositions(content: string, coins: seq<real>, rate: real)
    requires |coins| == |content|
    ensures |Erode(content, coins, rate)| == |KeptPositions(coins, rate)|
    ensures forall j :: 0 <= j < |Erode(content, coins, rate)| ==>
              Erode(content, coins, rate)[j] == content[KeptPositions(coins, rate)[j]]
  {
    if content != [] {
      var n := |content| - 1;
      ErodeKeepsPositions(content[..n], coins[..n], rate);
    }
  }

  /** `idx` places each character of `a` at a strictly later position of `b`. */
  ghost predicate Embeds(idx: seq<int>, a: string, b: string) {
    && |idx| == |a|
    && (forall j :: 0 <= j < |idx| ==> 0 <= idx[j] < |b| && a[j] == b[idx[j]])
    && (forall j, j' :: 0 <= j < j' < |idx| ==> idx[j] < idx[j'])
  }

  /** `a` is obtained from `b` by deleting characters only. */
  ghost predicate IsSubsequence(a: string, b: string) {
    exists idx :: Embeds(idx, a, b)
  }

  /** Erosion only deletes: what remains is a subsequence of the original. */
  lemma ErodeIsSubsequence(content: string, coins: seq<real>, rate: real)
    requires |coins| == |content|
    ensures IsSubsequence(Erode(content, coins, rate), content)
  {
    ErodeKeepsPositions(content, coins, rate);
    assert Embeds(KeptPositions(coins, rate), Erode(content, coins, rate), content);
  }

  /** When every coin is above the rate the content survives intact. */
  lemma {:induction false} ErodeKeepsAll(content: string, coins: seq<real>, rate: real)
    requires |coins| == |content|
    requires forall i :: 0 <= i < |coins| ==> coins[i] > rate
    ensures Erode(content, coins, rate) == content
  {
    if content != [] {
      var n := |content| - 1;
      ErodeKeepsAll(content[..n], coins[..n], rate);
      assert content[..n] + [content[n]] == content;
    }
  }

  /** When no coin is above the rate (e.g. a rate of 1.0) the content is emptied. */
  lemma {:induction false} ErodeDropsAll(content: string, coins: seq<real>, rate: real)
    requires |coins| == |content|
    requires forall i :: 0 <= i < |coins| ==> coins[i] <= rate
    ensures Erode(content, coins, rate) == []
  {
    if content != [] {
      var n := |content| - 1;
      ErodeDropsAll(content[..n], coins[..n], rate);
    }
  }

  lemma SubsequenceReflexive(a: string)
    ensures IsSubsequence(a, a)
  {
    assert Embeds(seq(|a|, j => j), a, a);
  }

  /** Deleting characters twice is deleting characters once. */
  lemma SubsequenceTransitive(a: string, b: string, c: string)
    requires IsSubsequence(a, b) && IsSubsequence(b, c)
    ensures IsSubsequence(a, c)
  {
    var i1 :| Embeds(i1, a, b);
    var i2 :| Embeds(i2, b, c);
    var i3 := seq(|a|, j requires 0 <= j < |a| => i2[i1[j]]);
    assert Embeds(i3, a, c);
  }

  lemma {:induction false} EmbedsBound(idx: seq<int>, a: string, b: string, j: int)
    requires Embeds(idx, a, b) && 0 <= j < |idx|
    ensures j <= idx[j]
  {
    if j > 0 {
      EmbedsBound(idx, a, b, j - 1);
    }
  }

  /** A subsequence is never longer than the original. */
  lemma SubsequenceNotLonger(a: string, b: string)
    requires IsSubsequence(a, b)
    ensures |a| <= |b|
  {
    var idx :| Embeds(idx, a, b);
    if |a| > 0 {
      EmbedsBound(idx, a, b, |a| - 1);
    }
  }

  /** Age of a file in days: `(now - ctime) / (24 * 3600)`. */
  function AgeDays(now: real, ctime: real): real {
    (now - ctime) / SECONDS_PER_DAY
  }

  /** Aging: chance that a file is selected, `min(0.02 + age * 0.01, 0.3)`. */
  function CorruptionChance(ageDays: real): (c: real)
    ensures c <= 0.3
    ensures ageDays >= 0.0 ==> 0.02 <= c
    ensures ageDays >= 28.0 ==> c == 0.3
    ensures ageDays <= 28.0 ==> c == 0.02 + ageDays * 0.01
  {
    var linear := 0.02 + ageDays * 0.01;
    if linear <= 0.3 then linear else 0.3
  }

  /** Aging: per-character deletion chance, `min(0.05 + age * 0.02, 0.4)`. */
  function CorruptionRate(ageDays: real): (c: real)
    ensures c <= 0.4
    ensures ageDays >= 0.0 ==> 0.05 <= c
    ensures ageDays >= 17.5 ==> c == 0.4
    ensures ageDays <= 17.5 ==> c == 0.05 + ageDays * 0.02
  {
    var linear := 0.05 + ageDays * 0.02;
    if linear <= 0.4 then linear else 0.4
  }

  /** Older files are at least as likely to be selected and lose characters at
      least as fast. */
  lemma AgingMonotone(younger: real, older: real)
    requires younger <= older
    ensures CorruptionChance(younger) <= CorruptionChance(older)
    ensures CorruptionRate(younger) <= CorruptionRate(older)
  {
  }

  /** Age grows as the creation time recedes. */
  lemma AgeDaysAntitone(now: real, newer: real, older: real)
    requires older <= newer
    ensures AgeDays(now, newer) <= AgeDays(now, older)
  {
  }
}
