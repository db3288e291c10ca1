/**
 * Character and string helpers standing in for the Python built-ins the core relies on:
 * `str.strip()` (with its Unicode whitespace set), ASCII digit tests and the
 * decimal value of a digit string.
 */
module Text {

  /** The characters Python's `str.isspace()` accepts, which `str.strip()` removes at both ends. */
  predicate IsSpace(c: char): (b: bool)
    ensures c == ' ' || c == '\t' || c == '\n' || c == '\r' ==> b
    ensures '0' <= c <= '9' || c == '@' || c == '.' ==> !b
  {
    var n := c as int;
    || 0x09 <= n <= 0x0D
    || 0x1C <= n <= 0x20
    || n == 0x85 || n == 0xA0 || n == 0x1680
    || 0x2000 <= n <= 0x200A
    || n == 0x2028 || n == 0x2029 || n == 0x202F || n == 0x205F || n == 0x3000
  }

  /** Drops the leading whitespace of `s`. */
  function TrimStart(s: string): (r: string)
    ensures |r| <= |s| && r == s[|s| - |r|..]
    ensures forall k :: 0 <= k < |s| - |r| ==> IsSpace(s[k])
    ensures r == [] || !IsSpace(r[0])
  {
    if s != [] && IsSpace(s[0]) then
      var r := TrimStart(s[1..]);
      assert forall k :: 1 <= k < |s| - |r| ==> s[k] == s[1..][k - 1];
      r
    else s
  }

  /** Drops the trailing whitespace of `s`. */
  function TrimEnd(s: string): (r: string)
    ensures |r| <= |s| && r == s[..|r|]
    ensures forall k :: |r| <= k < |s| ==> IsSpace(s[k])
    ensures r == [] || !IsSpace(r[|r| - 1])
  {
    if s != [] && IsSpace(s[|s| - 1]) then TrimEnd(s[..|s| - 1]) else s
  }

  /**
   * Python's `s.strip()`: the slice `s[i..j]` left after every whitespace character before `i`
   * and from `j` on is removed, and which neither starts nor ends with whitespace.
   */
  function Strip(s: string): (r: string)
    ensures exists i, j :: IsTrimmedCut(s, i, j) && r == s[i..j]
    ensures r == [] || (!IsSpace(r[0]) && !IsSpace(r[|r| - 1]))
  {
    var t := TrimStart(s);
    var r := TrimEnd(t);
    TrimsAreACut(s, t, r);
    r
  }

  /**
   * Trimming the start and then the end of `s` (`t`, then `r`) keeps the slice that starts
   * where `t` starts: a whitespace-only cut of `s` whose kept part has non-space ends.
   */
  lemma TrimsAreACut(s: string, t: string, r: string)
    requires |t| <= |s| && t == s[|s| - |t|..] && forall k :: 0 <= k < |s| - |t| ==> IsSpace(s[k])
    requires t == [] || !IsSpace(t[0])
    requires |r| <= |t| && r == t[..|r|] && forall k :: |r| <= k < |t| ==> IsSpace(t[k])
    requires r == [] || !IsSpace(r[|r| - 1])
    ensures IsTrimmedCut(s, |s| - |t|, |s| - |t| + |r|) && r == s[|s| - |t|..|s| - |t| + |r|]
  {
    var i := |s| - |t|;
    forall k | i + |r| <= k < |s|
      ensures IsSpace(s[k])
    {
      assert s[k] == t[k - i];
    }
    if r != [] {
      assert s[i] == t[0] && s[i + |r| - 1] == r[|r| - 1];
    }
  }

  /**
   * `s[i..j]` is what stripping leaves: every character of `s` before `i` and from `j` on
   * is whitespace, and the kept part, unless empty, starts and ends with a non-space.
   */
  ghost predicate IsTrimmedCut(s: string, i: int, j: int)
  {
    && 0 <= i <= j <= |s|
    && (forall k :: 0 <= k < i ==> IsSpace(s[k]))
    && (forall k :: j <= k < |s| ==> IsSpace(s[k]))
    && (i == j || (!IsSpace(s[i]) && !IsSpace(s[j - 1])))
  }

  /** The characterisation in Strip's contract pins its result down: there is only one trimmed cut. */
  lemma StripUnique(s: string, i: nat, j: nat)
    requires IsTrimmedCut(s, i, j)
    ensures Strip(s) == s[i..j]
  {
    var i', j' :| IsTrimmedCut(s, i', j') && Strip(s) == s[i'..j'];
    TrimmedCutUnique(s, i, j, i', j');
  }

  /** Two trimmed cuts either both keep nothing or are the same cut. */
  lemma TrimmedCutUnique(s: string, i: int, j: int, i': int, j': int)
    requires IsTrimmedCut(s, i, j) && IsTrimmedCut(s, i', j')
    ensures (i == j && i' == j') || (i == i' && j == j')
  {
    EmptyCutsAgree(s, i, j, i', j');
    if i < j {
      CutStartsAgree(s, i, j, i', j');
      CutEndsAgree(s, i, j, i', j');
    }
  }

  /** Of two trimmed cuts, one keeps nothing only if the other keeps nothing. */
  lemma EmptyCutsAgree(s: string, i: int, j: int, i': int, j': int)
    requires IsTrimmedCut(s, i, j) && IsTrimmedCut(s, i', j')
    ensures i == j <==> i' == j'
  {
    if i == j && i' < j' { assert false; }
    if i' == j' && i < j { assert false; }
  }

  /** Two trimmed cuts that keep something start at the same place. */
  lemma CutStartsAgree(s: string, i: int, j: int, i': int, j': int)
    requires IsTrimmedCut(s, i, j) && IsTrimmedCut(s, i', j') && i < j && i' < j'
    ensures i == i'
  {
    if i < i' { assert false; }
    if i' < i { assert false; }
  }

  /** Two trimmed cuts that keep something end at the same place. */
  lemma CutEndsAgree(s: string, i: int, j: int, i': int, j': int)
    requires IsTrimmedCut(s, i, j) && IsTrimmedCut(s, i', j') && i < j && i' < j'
    ensures j == j'
  {
    if j < j' { assert false; }
    if j' < j { assert false; }
  }

  /** A string that neither starts nor ends with whitespace is its own strip. */
  lemma StripOfUnpadded(s: string)
    requires s == [] || (!IsSpace(s[0]) && !IsSpace(s[|s| - 1]))
    ensures Strip(s) == s
  {
    assert IsTrimmedCut(s, 0, |s|);
    StripUnique(s, 0, |s|);
  }

  /** Stripping twice is stripping once. */
  lemma StripIdempotent(s: string)
    ensures Strip(Strip(s)) == Strip(s)
  {
    StripOfUnpadded(Strip(s));
  }

  /** One ASCII digit, the class `[0-9]` of a Python regular expression. */
  predicate IsDigit(c: char)
  {
    '0' <= c <= '9'
  }

  predicate AllDigits(s: string)
  {
    forall k :: 0 <= k < |s| ==> IsDigit(s[k])
  }

  function Pow10(n: nat): (p: nat)
    ensures p >= 1
  {
    if n == 0 then 1 else 10 * Pow10(n - 1)
  }

  /** The number a string of decimal digits denotes, most significant digit first. */
  function DecimalValue(s: string): (v: nat)
    requires AllDigits(s)
    ensures v < Pow10(|s|)
  {
    if s == [] then 0
    else DecimalValue(s[..|s| - 1]) * 10 + (s[|s| - 1] as int - '0' as int)
  }
}
