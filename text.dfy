/** Helpers over Python strings: prefixes and suffixes, whitespace stripping,
    slicing, and decimal formatting of small integers. */
module Text {

  predicate StartsWith(s: string, prefix: string) {
    |prefix| <= |s| && s[..|prefix|] == prefix
  }

  predicate EndsWith(s: string, suffix: string) {
    |suffix| <= |s| && s[|s| - |suffix|..] == suffix
  }

  /** Python's `str.isspace()` for a single character. */
  predicate IsSpace(c: char) {
    var x := c as int;
    (9 <= x <= 13) || (28 <= x <= 32) || x == 0x85 || x == 0xA0 || x == 0x1680
    || (0x2000 <= x <= 0x200A) || x == 0x2028 || x == 0x2029 || x == 0x202F
    || x == 0x205F || x == 0x3000
  }

  /** Drops leading whitespace. */
  function StripLeft(s: string): (r: string)
    ensures |r| <= |s| && r == s[|s| - |r|..]
    ensures forall i :: 0 <= i < |s| - |r| ==> IsSpace(s[i])
    ensures r == [] || !IsSpace(r[0])
    decreases |s|
  {
    if s != [] && IsSpace(s[0]) then StripLeft(s[1..]) else s
  }

  /** Drops trailing whitespace. */
  function StripRight(s: string): (r: string)
    ensures |r| <= |s| && r == s[..|r|]
    ensures forall i :: |r| <= i < |s| ==> IsSpace(s[i])
    ensures r == [] || !IsSpace(r[|r| - 1])
    decreases |s|
  {
    if s != [] && IsSpace(s[|s| - 1]) then StripRight(s[..|s| - 1]) else s
  }

  /** `r` is the slice `s[lo..lo + |r|]` and everything around it is whitespace. */
  ghost predicate TrimmedAt(s: string, lo: int, r: string) {
    && 0 <= lo && lo + |r| <= |s|
    && r == s[lo..lo + |r|]
    && (forall i :: 0 <= i < lo ==> IsSpace(s[i]))
    && (forall i :: lo + |r| <= i < |s| ==> IsSpace(s[i]))
  }

  /** Python's `str.strip()` with no argument: the middle of `s` left after
      removing whitespace at both ends. */
  function Strip(s: string): (r: string)
    ensures TrimmedAt(s, |StripRight(s)| - |r|, r)
    ensures r == [] || (!IsSpace(r[0]) && !IsSpace(r[|r| - 1]))
  {
    StripBothEnds(s);
    StripLeft(StripRight(s))
  }

  lemma StripBothEnds(s: string)
    ensures var t := StripRight(s); var r := StripLeft(t);
      && TrimmedAt(s, |t| - |r|, r)
      && (r == [] || (!IsSpace(r[0]) && !IsSpace(r[|r| - 1])))
  {
    var t := StripRight(s);
    var r := StripLeft(t);
    var lo := |t| - |r|;
    SliceOfPrefix(s, t, lo);
    LeadingOfPrefix(s, t, lo);
    assert r != [] ==> r[|r| - 1] == t[|t| - 1];
  }

  lemma SliceOfPrefix(s: string, t: string, lo: int)
    requires |t| <= |s| && t == s[..|t|] && 0 <= lo <= |t|
    ensures t[lo..] == s[lo..|t|]
  {
  }

  lemma LeadingOfPrefix(s: string, t: string, lo: int)
    requires |t| <= |s| && t == s[..|t|] && 0 <= lo <= |t|
    requires forall i :: 0 <= i < lo ==> IsSpace(t[i])
    ensures forall i :: 0 <= i < lo ==> IsSpace(s[i])
  {
    assert forall i :: 0 <= i < lo ==> s[i] == t[i];
  }

  /** The two properties of `Strip` pin its result down: any middle slice with
      whitespace around it and no whitespace at its ends is `Strip(s)`. */
  lemma StripUnique(s: string, lo: int, r: string)
    requires TrimmedAt(s, lo, r)
    requires r == [] || (!IsSpace(r[0]) && !IsSpace(r[|r| - 1]))
    ensures r == Strip(s)
  {
    var q := Strip(s);
    var lo' := |StripRight(s)| - |q|;
    if r == [] {
      AllSpace(s, lo, r, lo', q);
    } else if q == [] {
      AllSpace(s, lo', q, lo, r);
    } else {
      SameStart(s, lo, r, lo', q);
      SameStart(s, lo', q, lo, r);
      SameEnd(s, lo, r, lo', q);
      SameEnd(s, lo', q, lo, r);
    }
  }

  /** An all-whitespace string has no other trimmed middle than the empty one. */
  lemma AllSpace(s: string, lo: int, r: string, lo': int, q: string)
    requires TrimmedAt(s, lo, r) && r == []
    requires TrimmedAt(s, lo', q)
    requires q == [] || !IsSpace(q[0])
    ensures q == []
  {
    assert forall i :: 0 <= i < |s| ==> IsSpace(s[i]);
  }

  /** A trimmed middle starting with a non-space cannot start inside the
      leading whitespace of another. */
  lemma SameStart(s: string, lo: int, r: string, lo': int, q: string)
    requires TrimmedAt(s, lo, r) && TrimmedAt(s, lo', q)
    requires q != [] && !IsSpace(q[0])
    ensures lo <= lo'
  {
    assert s[lo'] == q[0];
  }

  /** A trimmed middle ending with a non-space cannot end inside the trailing
      whitespace of another. */
  lemma SameEnd(s: string, lo: int, r: string, lo': int, q: string)
    requires TrimmedAt(s, lo, r) && TrimmedAt(s, lo', q)
    requires q != [] && !IsSpace(q[|q| - 1])
    ensures lo' + |q| <= lo + |r|
  {
    assert s[lo' + |q| - 1] == q[|q| - 1];
  }

  /** A trailing whitespace character never changes the stripped text. */
  lemma StripDropsTrailingSpace(s: string, c: char)
    requires IsSpace(c)
    ensures Strip(s + [c]) == Strip(s)
  {
    assert (s + [c])[..|s|] == s;
  }

  /** Python's slice `s[:n]`. */
  function Prefix(s: string, n: nat): (r: string)
    ensures r <= s && |r| <= n
    ensures |r| < n ==> r == s
  {
    if |s| <= n then s else s[..n]
  }

  function DigitChar(d: nat): (c: char)
    requires d < 10
    ensures '0' <= c <= '9' && (c as int) - ('0' as int) == d
  {
    "0123456789"[d]
  }

  /** The value of a string of decimal digits (the inverse of `NatToString`). */
  function DecimalValue(s: string): nat
    requires forall i :: 0 <= i < |s| ==> '0' <= s[i] <= '9'
  {
    if s == [] then 0
    else DecimalValue(s[..|s| - 1]) * 10 + ((s[|s| - 1] as int) - ('0' as int))
  }

  /** Python's `str(n)` for a non-negative integer: the shortest decimal
      numeral, with no leading zero except for `0` itself. */
  function NatToString(n: nat): (r: string)
    ensures |r| >= 1
    ensures forall i :: 0 <= i < |r| ==> '0' <= r[i] <= '9'
    ensures DecimalValue(r) == n
    ensures |r| == 1 || r[0] != '0'
    ensures n > 0 ==> r[0] != '0'
    ensures (|r| == 1) == (n < 10)
    ensures n < 100 ==> |r| <= 2
  {
    if n < 10 then [DigitChar(n)]
    else
      var r := NatToString(n / 10) + [DigitChar(n % 10)];
      assert r[..|r| - 1] == NatToString(n / 10);
      r
  }

  /** Python's `f"{i:02d}"`: decimal, zero-padded to width two. */
  function TwoDigits(i: nat): (r: string)
    ensures |r| >= 2
    ensures forall k :: 0 <= k < |r| ==> '0' <= r[k] <= '9'
    ensures DecimalValue(r) == i
    ensures i < 100 ==> |r| == 2
    ensures i >= 10 ==> r[0] != '0'
    ensures i < 10 ==> r[0] == '0'
  {
    if i < 10 then
      var r := ['0', DigitChar(i)];
      assert r[..1] == ['0'] && ['0'][..0] == [];
      assert DecimalValue(['0']) == 0;
      r
    else NatToString(i)
  }
}
