/**
 * Character classes and string operations shared by the three scripts:
 * the ASCII readings of the regular-expression classes `\d` and `\w`,
 * prefix tests, ASCII lower-casing and Python's `str.replace`.
 */
module Text {

  /** `\d`, read as an ASCII decimal digit. */
  predicate IsDigit(c: char) {
    '0' <= c <= '9'
  }

  /** `\w`, read as an ASCII letter, digit or underscore. */
  predicate IsWordChar(c: char) {
    ('a' <= c <= 'z') || ('A' <= c <= 'Z') || IsDigit(c) || c == '_'
  }

  predicate AllDigits(s: string) {
    forall i :: 0 <= i < |s| ==> IsDigit(s[i])
  }

  /** The characters of `s` from `i` up to `j` are digits. */
  predicate DigitsBetween(s: string, i: int, j: int) {
    forall m :: i <= m < j && 0 <= m < |s| ==> IsDigit(s[m])
  }

  predicate AllWordChars(s: string) {
    forall i :: 0 <= i < |s| ==> IsWordChar(s[i])
  }

  /** Python's `s.startswith(p)`; also what `re.match(p, s)` decides for a literal `p`. */
  predicate StartsWith(s: string, p: string) {
    |p| <= |s| && s[..|p|] == p
  }

  /** The index of the first non-digit at or after `i` (or `|s|`): the end of a greedy `\d*`. */
  function DigitRunEnd(s: string, i: nat): (j: nat)
    requires i <= |s|
    ensures i <= j <= |s|
    ensures DigitsBetween(s, i, j)
    ensures j < |s| ==> !IsDigit(s[j])
    decreases |s| - i
  {
    if i == |s| || !IsDigit(s[i]) then i else DigitRunEnd(s, i + 1)
  }

  /** A block of digits is all digits as a slice too. */
  lemma DigitsBetweenSlice(s: string, i: int, j: int)
    ensures 0 <= i <= j <= |s| ==> (DigitsBetween(s, i, j) <==> AllDigits(s[i..j]))
  {
    if 0 <= i <= j <= |s| {
      assert forall m :: i <= m < j ==> s[i..j][m - i] == s[m];
    }
  }

  /** The run end is the only index that ends a digit run: any digit block followed by a non-digit ends there. */
  lemma DigitRunEndUnique(s: string, i: nat, k: nat)
    requires i <= k <= |s|
    requires DigitsBetween(s, i, k)
    requires k < |s| ==> !IsDigit(s[k])
    ensures DigitRunEnd(s, i) == k
  {
  }

  /** ASCII lower-casing of one character (Python's `str.lower` on ASCII). */
  function LowerChar(c: char): (r: char)
    ensures 'A' <= c <= 'Z' ==> 'a' <= r <= 'z'
    ensures !('A' <= c <= 'Z') ==> r == c
  {
    if 'A' <= c <= 'Z' then (c as int + 32) as char else c
  }

  function ToLower(s: string): (r: string)
    ensures |r| == |s|
    ensures forall i :: 0 <= i < |s| ==> r[i] == LowerChar(s[i])
  {
    seq(|s|, i requires 0 <= i < |s| => LowerChar(s[i]))
  }

  /** `p` occurs in `s` starting at index `i`. */
  predicate OccursAt(s: string, p: string, i: int) {
    0 <= i && i + |p| <= |s| && s[i..i + |p|] == p
  }

  /** Python's `p in s`. */
  predicate Occurs(s: string, p: string) {
    exists i | 0 <= i <= |s| :: OccursAt(s, p, i)
  }

  /** No character of `a` is a character of `b`. */
  predicate NoCommonChar(a: string, b: string) {
    forall i, j :: 0 <= i < |a| && 0 <= j < |b| ==> a[i] != b[j]
  }

  /**
   * Python's `s.replace(pat, rep)`: scanning left to right, every
   * non-overlapping occurrence of `pat` is replaced by `rep`.
   */
  function ReplaceAll(s: string, pat: string, rep: string): string
    requires |pat| > 0
    decreases |s|
  {
    if |s| < |pat| then s
    else if s[..|pat|] == pat then rep + ReplaceAll(s[|pat|..], pat, rep)
    else [s[0]] + ReplaceAll(s[1..], pat, rep)
  }

  /** A prefix without the first character of `pat` is copied unchanged. */
  lemma {:induction false} ReplaceAllNoHead(a: string, b: string, pat: string, rep: string)
    requires |pat| > 0
    requires forall k :: 0 <= k < |a| ==> a[k] != pat[0]
    ensures ReplaceAll(a + b, pat, rep) == a + ReplaceAll(b, pat, rep)
    decreases |a|
  {
    if a == [] {
      assert a + b == b;
    } else if |a + b| < |pat| {
      assert ReplaceAll(b, pat, rep) == b;
    } else {
      var s := a + b;
      assert s[..|pat|][0] == a[0];
      assert s[..|pat|] != pat;
      assert ReplaceAll(s, pat, rep) == [s[0]] + ReplaceAll(s[1..], pat, rep);
      assert s[1..] == a[1..] + b;
      ReplaceAllNoHead(a[1..], b, pat, rep);
      assert a == [a[0]] + a[1..];
    }
  }

  /** An occurrence at the front is replaced, and the scan goes on after it. */
  lemma ReplaceAllHead(pat: string, b: string, rep: string)
    requires |pat| > 0
    ensures ReplaceAll(pat + b, pat, rep) == rep + ReplaceAll(b, pat, rep)
  {
    assert (pat + b)[..|pat|] == pat && (pat + b)[|pat|..] == b;
  }

  /** A string without the first character of `pat` comes through unchanged. */
  lemma ReplaceAllSkips(s: string, pat: string, rep: string)
    requires |pat| > 0 && forall k :: 0 <= k < |s| ==> s[k] != pat[0]
    ensures ReplaceAll(s, pat, rep) == s
  {
    ReplaceAllNoHead(s, [], pat, rep);
    assert s + [] == s;
    assert ReplaceAll([], pat, rep) == [];
  }

  /** A name ending in `.` and `pat`, with no first character of `pat` before, has only that suffix replaced. */
  lemma ReplaceAllAfterDot(stem: string, pat: string, rep: string)
    requires |pat| > 0 && pat[0] != '.' && forall k :: 0 <= k < |stem| ==> stem[k] != pat[0]
    ensures ReplaceAll(stem + "." + pat, pat, rep) == stem + "." + rep
  {
    var dotted := stem + ".";
    assert forall k :: 0 <= k < |dotted| ==> dotted[k] != pat[0];
    ReplaceAllNoHead(dotted, pat, pat, rep);
    ReplaceAllHead(pat, [], rep);
    assert pat + [] == pat && rep + [] == rep;
  }

  /** Replacing in a string that does not contain `pat` changes nothing. */
  lemma {:induction false} ReplaceAllIdentity(s: string, pat: string, rep: string)
    requires |pat| > 0
    requires !Occurs(s, pat)
    ensures ReplaceAll(s, pat, rep) == s
  {
    if |s| >= |pat| {
      assert !OccursAt(s, pat, 0);
      forall i | OccursAt(s[1..], pat, i) ensures OccursAt(s, pat, i + 1) {
        assert s[1..][i..i + |pat|] == s[i + 1..i + 1 + |pat|];
      }
      ReplaceAllIdentity(s[1..], pat, rep);
    }
  }

  /** The first character of an occurrence is the pattern's first character. */
  lemma OccursAtHead(s: string, p: string, i: int)
    ensures OccursAt(s, p, i) && |p| > 0 ==> s[i] == p[0]
  {
    if OccursAt(s, p, i) && |p| > 0 {
      assert s[i..i + |p|][0] == s[i];
    }
  }

  /** An occurrence in `a + b` that starts inside `b` is an occurrence in `b`. */
  lemma OccursAtShift(a: string, b: string, p: string, i: int)
    ensures OccursAt(a + b, p, i) && i >= |a| ==> OccursAt(b, p, i - |a|)
  {
    if OccursAt(a + b, p, i) && i >= |a| {
      assert (a + b)[i..i + |p|] == b[i - |a|..i - |a| + |p|];
    }
  }

  /** An occurrence in `b` is an occurrence in `a + b`, |a| places further on. */
  lemma OccursAtExtend(a: string, b: string, p: string, j: int)
    ensures OccursAt(b, p, j) ==> OccursAt(a + b, p, j + |a|)
  {
    if OccursAt(b, p, j) {
      assert (a + b)[j + |a|..j + |a| + |p|] == b[j..j + |p|];
    }
  }

  /**
   * When the replacement is non-empty, a prefix of the result made only of
   * characters outside `rep` was copied unchanged from the input.
   */
  lemma {:induction false} ReplaceAllKeptPrefix(t: string, pat: string, rep: string, q: string)
    requires |pat| > 0 && |rep| > 0
    requires |q| <= |ReplaceAll(t, pat, rep)| && ReplaceAll(t, pat, rep)[..|q|] == q
    requires NoCommonChar(rep, q)
    ensures |q| <= |t| && t[..|q|] == q
  {
    var r := ReplaceAll(t, pat, rep);
    if |t| < |pat| || |q| == 0 {
    } else {
      assert rep[0] != q[0];
      assert r[..|q|][0] == r[0];
      if t[..|pat|] != pat {
        var r1 := ReplaceAll(t[1..], pat, rep);
        assert r == [t[0]] + r1;
        assert r1[..|q| - 1] == q[1..];
        ReplaceAllKeptPrefix(t[1..], pat, rep, q[1..]);
        assert t[..|q|] == [t[0]] + t[1..][..|q| - 1] == [q[0]] + q[1..] == q;
      }
    }
  }

  /** After the replacement no occurrence of `pat` is left, provided `rep` shares no character with it. */
  lemma {:induction false} ReplaceAllRemoves(s: string, pat: string, rep: string)
    requires |pat| > 0 && |rep| > 0
    requires NoCommonChar(rep, pat)
    ensures !Occurs(ReplaceAll(s, pat, rep), pat)
  {
    var r := ReplaceAll(s, pat, rep);
    if |s| < |pat| {
    } else if s[..|pat|] == pat {
      var rest := ReplaceAll(s[|pat|..], pat, rep);
      assert r == rep + rest;
      ReplaceAllRemoves(s[|pat|..], pat, rep);
      forall i | 0 <= i ensures !OccursAt(r, pat, i) {
        OccursAtHead(r, pat, i);
        OccursAtShift(rep, rest, pat, i);
        if i < |rep| {
          assert r[i] == rep[i] && rep[i] != pat[0];
        }
      }
    } else {
      var rest := ReplaceAll(s[1..], pat, rep);
      assert r == [s[0]] + rest;
      ReplaceAllRemoves(s[1..], pat, rep);
      forall i | 0 <= i ensures !OccursAt(r, pat, i) {
        OccursAtShift([s[0]], rest, pat, i);
        if i == 0 && |pat| <= |r| && r[..|pat|] == pat {
          ReplaceAllKeptPrefix(s, pat, rep, pat);
        }
      }
    }
  }

  /** Replacing never creates an occurrence of a pattern `p` that shares no character with `rep`. */
  lemma {:induction false} ReplaceAllKeepsAbsent(s: string, pat: string, rep: string, p: string)
    requires |pat| > 0 && |rep| > 0 && |p| > 0
    requires NoCommonChar(rep, p)
    requires !Occurs(s, p)
    ensures !Occurs(ReplaceAll(s, pat, rep), p)
  {
    var r := ReplaceAll(s, pat, rep);
    if |s| < |pat| {
    } else if s[..|pat|] == pat {
      var tail := s[|pat|..];
      assert s == pat + tail;
      forall j | 0 <= j ensures !OccursAt(tail, p, j) {
        OccursAtExtend(pat, tail, p, j);
      }
      var rest := ReplaceAll(tail, pat, rep);
      assert r == rep + rest;
      ReplaceAllKeepsAbsent(tail, pat, rep, p);
      forall i | 0 <= i ensures !OccursAt(r, p, i) {
        OccursAtHead(r, p, i);
        OccursAtShift(rep, rest, p, i);
        if i < |rep| {
          assert r[i] == rep[i] && rep[i] != p[0];
        }
      }
    } else {
      var tail := s[1..];
      assert s == [s[0]] + tail;
      forall j | 0 <= j ensures !OccursAt(tail, p, j) {
        OccursAtExtend([s[0]], tail, p, j);
      }
      var rest := ReplaceAll(tail, pat, rep);
      assert r == [s[0]] + rest;
      ReplaceAllKeepsAbsent(tail, pat, rep, p);
      assert !OccursAt(s, p, 0);
      forall i | 0 <= i ensures !OccursAt(r, p, i) {
        OccursAtShift([s[0]], rest, p, i);
        if i == 0 && |p| <= |r| && r[..|p|] == p {
          ReplaceAllKeptPrefix(s, pat, rep, p);
        }
      }
    }
  }
}
