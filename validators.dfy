/**
 * The two syntactic validators of the system. Each is written as the check it performs
 * and is proved equal to a direct reading of the regular expression it stands for,
 * including the two quirks of Python's `re.match`: it is anchored only at the start,
 * and `$` also matches just before one final newline.
 */
module Validators {
  import opened Text

  // ---------------------------------------------------------------- phone

  /** `re.match(r"^[0-9]{10}$", p)`: ten ASCII digits, then the end or a final newline. */
  predicate ValidPhone(p: string): (ok: bool)
    ensures ok ==> |p| == 10 || (|p| == 11 && p[10] == '\n')
  {
    |p| >= 10 && AllDigits(p[..10]) && (p[10..] == "" || p[10..] == "\n")
  }

  /** The phone pattern accepts exactly the ten-digit strings, each with or without one trailing newline. */
  lemma {:induction false} ValidPhoneIsTenDigits(p: string)
    ensures ValidPhone(p) <==> exists d :: |d| == 10 && AllDigits(d) && (p == d || p == d + "\n")
  {
    if ValidPhone(p) {
      var d := p[..10];
      assert p == d || p == d + "\n" by {
        assert p == p[..10] + p[10..];
      }
    }
    if exists d :: |d| == 10 && AllDigits(d) && (p == d || p == d + "\n") {
      var d :| |d| == 10 && AllDigits(d) && (p == d || p == d + "\n");
      assert p[..10] == d;
      assert p[10..] == "" || p[10..] == "\n";
    }
  }

  /** Neither surrounding blanks nor a second newline are tolerated; nothing strips the phone first. */
  lemma PhoneRejectsPadding(d: string)
    requires |d| == 10 && AllDigits(d)
    ensures ValidPhone(d) && ValidPhone(d + "\n")
    ensures !ValidPhone(d + "\n\n") && !ValidPhone(" " + d) && !ValidPhone(d + " ")
  {
    assert (d + "\n")[..10] == d;
    assert (d + "\n\n")[10..] == "\n\n";
    assert (d + " ")[10..] == " ";
    assert !IsDigit((" " + d)[0]);
  }

  // ---------------------------------------------------------------- email

  /** The index of the first `@` in `s`, or `|s|` when there is none. */
  function FirstAt(s: string): (i: nat)
    ensures i <= |s|
    ensures i < |s| ==> s[i] == '@'
    ensures '@' !in s[..i]
  {
    if s == [] then 0
    else if s[0] == '@' then 0
    else
      var i := 1 + FirstAt(s[1..]);
      assert s[..i] == [s[0]] + s[1..][..i - 1];
      i
  }

  /**
   * `re.match(r"[^@]+@[^@]+\.[^@]+", e)`, read as a check: a non-empty local part up to the
   * first `@`, then in the `@`-free segment that follows it a `.` that is neither the
   * segment's first nor its last character. Whatever comes after that segment is ignored.
   */
  predicate ValidEmail(e: string): (ok: bool)
    ensures ok ==> |e| >= 5
  {
    var a := FirstAt(e);
    && 0 < a < |e|
    && var rest := e[a + 1..];
    && var seg := rest[..FirstAt(rest)];
    && |seg| >= 3 && '.' in seg[1..|seg| - 1]
  }

  /** One way the pattern's three `[^@]+` runs can be laid over `e[..c]`. */
  ghost predicate EmailSplit(e: string, a: int, b: int, c: int)
  {
    && 0 < a && a + 1 < b && b + 1 < c <= |e|
    && '@' !in e[..a] && e[a] == '@'
    && '@' !in e[a + 1..b] && e[b] == '.'
    && '@' !in e[b + 1..c]
  }

  /** The regular expression matches a prefix of `e`. */
  ghost predicate MatchesEmailPattern(e: string)
  {
    exists a, b, c :: EmailSplit(e, a, b, c)
  }

  /** The check is the pattern, in both directions. */
  lemma ValidEmailIsPatternMatch(e: string)
    ensures ValidEmail(e) <==> MatchesEmailPattern(e)
  {
    if ValidEmail(e) { ValidEmailMatches(e); }
    if MatchesEmailPattern(e) {
      var a, b, c :| EmailSplit(e, a, b, c);
      MatchIsValidEmail(e, a, b, c);
    }
  }

  lemma {:induction false} ValidEmailMatches(e: string)
    requires ValidEmail(e)
    ensures MatchesEmailPattern(e)
  {
    var a := FirstAt(e);
    var rest := e[a + 1..];
    var seg := rest[..FirstAt(rest)];
    var q :| 0 <= q < |seg| - 2 && seg[1..|seg| - 1][q] == '.';
    var b := a + 2 + q;
    var c := b + 2;
    assert seg == e[a + 1..a + 1 + FirstAt(rest)];
    SliceOfSlice(e, seg, a + 1, 0, q + 1);
    SliceOfSlice(e, seg, a + 1, q + 2, q + 3);
    assert e[b] == seg[q + 1] == '.';
    assert EmailSplit(e, a, b, c);
  }

  lemma {:induction false} MatchIsValidEmail(e: string, a: int, b: int, c: int)
    requires EmailSplit(e, a, b, c)
    ensures ValidEmail(e)
  {
    FirstAtIs(e, a);
    var rest := e[a + 1..];
    assert rest[..c - a - 1] == e[a + 1..b] + [e[b]] + e[b + 1..c];
    FirstAtAtLeast(rest, c - a - 1);
    var seg := rest[..FirstAt(rest)];
    assert seg[1..|seg| - 1][b - a - 2] == '.';
  }

  /** A slice of a slice of `e` is a slice of `e`. */
  lemma SliceOfSlice(e: string, seg: string, i: nat, x: nat, y: nat)
    requires i + |seg| <= |e| && seg == e[i..i + |seg|] && x <= y <= |seg|
    ensures seg[x..y] == e[i + x..i + y]
  {
    forall k | 0 <= k < y - x
      ensures seg[x..y][k] == e[i + x..i + y][k]
    {
      assert seg[x + k] == e[i..i + |seg|][x + k];
    }
  }

  lemma FirstAtIs(s: string, a: nat)
    requires a < |s| && s[a] == '@' && '@' !in s[..a]
    ensures FirstAt(s) == a
  {
  }

  lemma FirstAtAtLeast(s: string, n: nat)
    requires n <= |s| && '@' !in s[..n]
    ensures FirstAt(s) >= n
  {
  }

  /** Start-only anchoring: whatever follows a valid email, `@` included, leaves it valid. */
  lemma {:induction false} EmailAnchoredAtStartOnly(e: string, t: string)
    requires ValidEmail(e)
    ensures ValidEmail(e + t)
  {
    ValidEmailIsPatternMatch(e);
    var a, b, c :| EmailSplit(e, a, b, c);
    var et := e + t;
    assert et[..a] == e[..a];
    assert et[a + 1..b] == e[a + 1..b];
    assert et[b + 1..c] == e[b + 1..c];
    assert EmailSplit(et, a, b, c);
    ValidEmailIsPatternMatch(et);
  }

  /** The local part must be non-empty, and a `.` must follow the first `@`. */
  lemma {:induction false} EmailNeedsThreeRuns(e: string)
    ensures |e| > 0 && e[0] == '@' ==> !ValidEmail(e)
    ensures (forall i :: FirstAt(e) < i < |e| ==> e[i] != '.') ==> !ValidEmail(e)
  {
    ValidEmailIsPatternMatch(e);
    if ValidEmail(e) {
      var a, b, c :| EmailSplit(e, a, b, c);
      FirstAtIs(e, a);
      assert e[..a][0] == e[0];
      assert e[b] == '.';
    }
  }

  /**
   * The dot must lie between the first `@` and the next one, with a non-`@` character on
   * each side of it.
   */
  lemma {:induction false} EmailDotBeforeNextAt(e: string)
    requires ValidEmail(e)
    ensures exists b ::
      FirstAt(e) + 1 < b && b + 1 < |e| && e[b] == '.' && (forall k :: FirstAt(e) < k < b + 2 ==> e[k] != '@')
  {
    ValidEmailIsPatternMatch(e);
    var a, b, c :| EmailSplit(e, a, b, c);
    FirstAtIs(e, a);
    forall k | a < k < b + 2
      ensures e[k] != '@'
    {
      if k < b {
        assert e[a + 1..b][k - a - 1] == e[k];
      } else if k == b + 1 {
        assert e[b + 1..c][0] == e[k];
      }
    }
  }

  /**
   * Boundary cases: `@b.c` (empty local part), `a@.c` and `a@bc.` (dot at an edge of the
   * domain segment) and `a@b@c.d` (dot only after the next `@`) are rejected.
   */
  lemma EmailEdgeExamples()
    ensures !ValidEmail("@b.c") && !ValidEmail("a@.c")
    ensures !ValidEmail("a@bc.") && !ValidEmail("a@b@c.d")
  {
    FirstAtIs("a@.c", 1);
    FirstAtAtLeast("a@.c"[2..], 2);
    FirstAtIs("a@bc.", 1);
    FirstAtAtLeast("a@bc."[2..], 3);
    FirstAtIs("a@b@c.d", 1);
    FirstAtIs("a@b@c.d"[2..], 1);
  }
}
