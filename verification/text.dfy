/** The Python string operations the program relies on: `str.strip()`,
    `str.lower()`, the substring test `needle in hay`, and `str(int)`.
    Whitespace and case are modelled over ASCII only. */
module Text {
  import opened Wrappers

  /** `c.isspace()` restricted to ASCII: tab, line feed, vertical tab, form
      feed, carriage return, the four separators 0x1C-0x1F, and space. */
  predicate IsSpace(c: char) {
    9 <= c as int <= 13 || 28 <= c as int <= 32
  }

  function TrimStart(s: string): (r: string)
    ensures |r| <= |s| && r == s[|s| - |r|..]
    ensures forall k :: 0 <= k < |s| - |r| ==> IsSpace(s[k])
    ensures r == [] || !IsSpace(r[0])
  {
    if |s| > 0 && IsSpace(s[0]) then TrimStart(s[1..]) else s
  }

  function TrimEnd(s: string): (r: string)
    ensures |r| <= |s| && r == s[..|r|]
    ensures forall k :: |r| <= k < |s| ==> IsSpace(s[k])
    ensures r == [] || !IsSpace(r[|r| - 1])
  {
    if |s| > 0 && IsSpace(s[|s| - 1]) then TrimEnd(s[..|s| - 1]) else s
  }

  /** `r` is the window of `s` starting at `i`, and everything outside it is whitespace. */
  predicate StripWindow(s: string, r: string, i: int) {
    0 <= i <= |s| - |r| && r == s[i..i + |r|] &&
    (forall k :: 0 <= k < i ==> IsSpace(s[k])) &&
    (forall k :: i + |r| <= k < |s| ==> IsSpace(s[k]))
  }

  /** `r` is `s` with its leading and trailing whitespace removed: a window of
      `s` with only whitespace outside it, neither starting nor ending with
      whitespace. */
  ghost predicate IsStripOf(s: string, r: string) {
    (exists i :: StripWindow(s, r, i)) && (r == [] || (!IsSpace(r[0]) && !IsSpace(r[|r| - 1])))
  }

  /** Python's `s.strip()`. */
  function Strip(s: string): (r: string)
    ensures IsStripOf(s, r)
  {
    StripOfTrims(s);
    TrimEnd(TrimStart(s))
  }

  lemma StripOfTrims(s: string)
    ensures IsStripOf(s, TrimEnd(TrimStart(s)))
  {
    var t := TrimStart(s);
    StripWindowOfTrims(s, t, TrimEnd(t));
  }

  lemma StripWindowOfTrims(s: string, t: string, r: string)
    requires |t| <= |s| && t == s[|s| - |t|..]
    requires forall k :: 0 <= k < |s| - |t| ==> IsSpace(s[k])
    requires |r| <= |t| && r == t[..|r|]
    requires forall k :: |r| <= k < |t| ==> IsSpace(t[k])
    requires t == [] || !IsSpace(t[0])
    requires r == [] || !IsSpace(r[|r| - 1])
    ensures StripWindow(s, r, |s| - |t|)
    ensures r == [] || (!IsSpace(r[0]) && !IsSpace(r[|r| - 1]))
  {
    if r != [] {
      assert r[0] == t[0];
    }
    var i := |s| - |t|;
    assert r == s[i..i + |r|];
    forall k | i + |r| <= k < |s|
      ensures IsSpace(s[k])
    {
      assert s[k] == t[k - i];
    }
  }

  /** A string that neither starts nor ends with whitespace is its own strip. */
  lemma StripFixesTrimmed(s: string)
    requires s == [] || (!IsSpace(s[0]) && !IsSpace(s[|s| - 1]))
    ensures Strip(s) == s
  {
  }

  lemma StripIdempotent(s: string)
    ensures Strip(Strip(s)) == Strip(s)
  {
    StripFixesTrimmed(Strip(s));
  }

  /** Stripping never lengthens a string. */
  lemma StripNoLonger(s: string)
    ensures |Strip(s)| <= |s|
  {
    var i :| StripWindow(s, Strip(s), i);
  }

  /** Stripping leaves nothing exactly when the string is all whitespace. */
  lemma StripEmptyIffBlank(s: string)
    ensures Strip(s) == [] <==> forall k :: 0 <= k < |s| ==> IsSpace(s[k])
  {
    var r := Strip(s);
    var i :| StripWindow(s, r, i);
    if r != [] {
      assert r[0] == s[i] && !IsSpace(s[i]);
    }
  }

  /** Stripping leaves exactly the one character `c` when `c` is not
      whitespace and every other character is. */
  lemma StripSingle(s: string, c: char)
    ensures Strip(s) == [c] <==> exists i :: 0 <= i < |s| && s[i] == c && !IsSpace(c)
                                             && forall k :: 0 <= k < |s| && k != i ==> IsSpace(s[k])
  {
    var r := Strip(s);
    var w :| StripWindow(s, r, w);
    if r == [c] {
      assert s[w] == c && !IsSpace(c);
      assert forall k :: 0 <= k < |s| && k != w ==> IsSpace(s[k]);
    }
    if i :| 0 <= i < |s| && s[i] == c && !IsSpace(c) && forall k :: 0 <= k < |s| && k != i ==> IsSpace(s[k]) {
      if r == [] {
        StripEmptyIffBlank(s);
        assert false;
      }
      assert !IsSpace(r[0]) && !IsSpace(r[|r| - 1]);
      assert s[w] == r[0] && s[w + |r| - 1] == r[|r| - 1];
      assert w == i && w + |r| - 1 == i;
      assert r == [c];
    }
  }

  function LowerChar(c: char): char {
    if 'A' <= c <= 'Z' then (c as int + 32) as char else c
  }

  /** Python's `s.lower()` on ASCII letters: each character is lowered in place. */
  function Lower(s: string): (r: string)
    ensures |r| == |s|
    ensures forall k :: 0 <= k < |s| ==> r[k] == LowerChar(s[k])
  {
    if s == [] then [] else [LowerChar(s[0])] + Lower(s[1..])
  }

  /** Lowering twice is lowering once; no upper-case ASCII letter survives. */
  lemma LowerIdempotent(s: string)
    ensures Lower(Lower(s)) == Lower(s)
    ensures forall k :: 0 <= k < |s| ==> !('A' <= Lower(s)[k] <= 'Z')
  {
    assert forall k :: 0 <= k < |s| ==> Lower(Lower(s))[k] == Lower(s)[k];
  }

  /** `needle` occurs in `hay` at index `i`. */
  predicate OccursAt(needle: string, hay: string, i: int) {
    0 <= i && i + |needle| <= |hay| && hay[i..i + |needle|] == needle
  }

  /** Python's `needle in hay`. */
  function Contains(hay: string, needle: string): (r: bool)
    ensures r <==> exists i :: OccursAt(needle, hay, i)
    decreases |hay|
  {
    if |needle| > |hay| then
      false
    else if hay[..|needle|] == needle then
      assert OccursAt(needle, hay, 0);
      true
    else
      var rest := Contains(hay[1..], needle);
      OccursShift(needle, hay);
      rest
  }

  /** Occurrences in `hay[1..]` are the occurrences in `hay` after index 0. */
  lemma OccursShift(needle: string, hay: string)
    requires |hay| > 0 && !OccursAt(needle, hay, 0)
    ensures (exists i :: OccursAt(needle, hay[1..], i)) <==> (exists i :: OccursAt(needle, hay, i))
  {
    if i :| OccursAt(needle, hay[1..], i) {
      assert hay[i + 1..i + 1 + |needle|] == hay[1..][i..i + |needle|];
      assert OccursAt(needle, hay, i + 1);
    }
    if i :| OccursAt(needle, hay, i) {
      assert i > 0;
      assert hay[1..][i - 1..i - 1 + |needle|] == hay[i..i + |needle|];
      assert OccursAt(needle, hay[1..], i - 1);
    }
  }

  /** The last index at which `needle` occurs in `hay`, if any. */
  function LastIndexOf(hay: string, needle: string): (r: Option<nat>)
    ensures r.None? ==> forall i :: !OccursAt(needle, hay, i)
    ensures r.Some? ==> OccursAt(needle, hay, r.value)
    ensures r.Some? ==> forall i :: r.value < i ==> !OccursAt(needle, hay, i)
  {
    if |needle| > |hay| then None else LastIndexFrom(hay, needle, |hay| - |needle|)
  }

  function LastIndexFrom(hay: string, needle: string, k: nat): (r: Option<nat>)
    requires k + |needle| <= |hay|
    ensures r.None? ==> forall i :: i <= k ==> !OccursAt(needle, hay, i)
    ensures r.Some? ==> r.value <= k && OccursAt(needle, hay, r.value)
    ensures r.Some? ==> forall i :: r.value < i <= k ==> !OccursAt(needle, hay, i)
  {
    if hay[k..k + |needle|] == needle then Some(k)
    else if k == 0 then None
    else LastIndexFrom(hay, needle, k - 1)
  }

  predicate IsDigit(c: char) {
    '0' <= c <= '9'
  }

  function DigitChar(d: nat): (c: char)
    requires d < 10
    ensures IsDigit(c)
  {
    ('0' as int + d) as char
  }

  function DigitValue(c: char): nat
    requires IsDigit(c)
  {
    c as int - '0' as int
  }

  /** Python's `str(n)` for a natural number: its decimal digits, no leading zero. */
  function NatToString(n: nat): (r: string)
    ensures |r| > 0
    ensures forall k :: 0 <= k < |r| ==> IsDigit(r[k])
    ensures r[0] == '0' ==> n == 0
  {
    if n < 10 then [DigitChar(n)] else NatToString(n / 10) + [DigitChar(n % 10)]
  }

  /** Python's `str(i)`: a minus sign before the digits of a negative number. */
  function IntToString(i: int): (r: string)
    ensures |r| > 0
    ensures forall k :: 0 <= k < |r| ==> IsDigit(r[k]) || (k == 0 && r[k] == '-')
    ensures r[0] == '-' <==> i < 0
    ensures i >= 0 && r[0] == '0' ==> i == 0
    ensures i < 0 ==> |r| >= 2 && r[1] != '0'
  {
    if i < 0 then "-" + NatToString(-i) else NatToString(i)
  }

  /** The value of a non-empty run of decimal digits. */
  function ParseDigits(s: string): nat
    requires |s| > 0 && forall k :: 0 <= k < |s| ==> IsDigit(s[k])
  {
    if |s| == 1 then DigitValue(s[0])
    else 10 * ParseDigits(s[..|s| - 1]) + DigitValue(s[|s| - 1])
  }

  /** Reads back a decimal integer in the form `str(int)` writes. */
  function ParseInt(s: string): Option<int> {
    if |s| > 0 && s[0] == '-' then
      var t := s[1..];
      if |t| > 0 && forall k :: 0 <= k < |t| ==> IsDigit(t[k]) then Some(0 - ParseDigits(t) as int) else None
    else if |s| > 0 && forall k :: 0 <= k < |s| ==> IsDigit(s[k]) then Some(ParseDigits(s))
    else None
  }

  lemma {:induction false} NatToStringParses(n: nat)
    ensures ParseDigits(NatToString(n)) == n
  {
    if n >= 10 {
      var s := NatToString(n);
      assert s[..|s| - 1] == NatToString(n / 10);
      NatToStringParses(n / 10);
    }
  }

  /** `str(int)` loses nothing: the integer is recovered from its text. */
  lemma IntToStringParses(i: int)
    ensures ParseInt(IntToString(i)) == Some(i)
  {
    if i < 0 {
      assert IntToString(i)[1..] == NatToString(-i);
      NatToStringParses(-i);
    } else {
      NatToStringParses(i);
    }
  }
}
