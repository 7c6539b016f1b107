// Shared text conventions of Historian: optional and fallible results, the
// character classes of Ruby's regular expressions, and the line splitting done
// by Ruby's IO#each_line / IO#readlines.

module Wrappers {
  datatype Option<T> = None | Some(value: T)

  datatype Result<T, E> = Ok(value: T) | Err(error: E)
}

module Text {

  /** Ruby's `\s`: space, tab, line feed, vertical tab, form feed, carriage return. */
  predicate IsSpace(c: char) {
    c == ' ' || c == '\t' || c == '\n' || c == '\U{000B}' || c == '\U{000C}' || c == '\r'
  }

  /** Ruby's `[0-9]`. */
  predicate IsDigit(c: char) {
    '0' <= c <= '9'
  }

  /** Ruby's `[0-9a-zA-Z]`. */
  predicate IsAlnum(c: char) {
    IsDigit(c) || 'a' <= c <= 'z' || 'A' <= c <= 'Z'
  }

  /** Ruby's `\w`, which is ASCII-only: `[a-zA-Z0-9_]`. */
  predicate IsWordChar(c: char) {
    IsAlnum(c) || c == '_'
  }

  predicate AllDigits(s: string) {
    forall i :: 0 <= i < |s| ==> IsDigit(s[i])
  }

  predicate HasNewline(s: string) {
    exists i :: 0 <= i < |s| && s[i] == '\n'
  }

  predicate EndsWithNewline(s: string) {
    |s| > 0 && s[|s| - 1] == '\n'
  }

  /** Ruby's `$` holds at position e of s. */
  predicate EndsLineAt(s: string, e: nat) {
    e == |s| || (e < |s| && s[e] == '\n')
  }

  /** `needle` occurs in `s` at position `i`. */
  predicate OccursAt(s: string, needle: string, i: nat) {
    i + |needle| <= |s| && s[i..i + |needle|] == needle
  }

  /** Unanchored substring search, as a regular expression without metacharacters does. */
  predicate Contains(s: string, needle: string) {
    exists i :: 0 <= i <= |s| - |needle| && OccursAt(s, needle, i)
  }

  /** Array#join with no separator. */
  function Concat(lines: seq<string>): string {
    if lines == [] then [] else lines[0] + Concat(lines[1..])
  }

  lemma ConcatAppend(a: seq<string>, b: seq<string>)
    ensures Concat(a + b) == Concat(a) + Concat(b)
  {
    if a == [] {
      assert a + b == b;
    } else {
      assert (a + b)[0] == a[0];
      assert (a + b)[1..] == a[1..] + b;
      ConcatAppend(a[1..], b);
    }
  }

  /**
   * The first line feed at or after `i`, or `|s|` when there is none: where
   * Ruby's `$` first matches and where `.*` stops.
   */
  function LineEnd(s: string, i: nat): (e: nat)
    requires i <= |s|
    ensures i <= e <= |s|
    ensures e < |s| ==> s[e] == '\n'
    ensures forall j :: i <= j < e ==> s[j] != '\n'
    decreases |s| - i
  {
    if i == |s| || s[i] == '\n' then i else LineEnd(s, i + 1)
  }

  /** A line end found by its properties: no line feed before it, and `$` at it. */
  lemma {:induction false} LineEndStops(s: string, i: nat, e: nat)
    requires i <= e <= |s| && EndsLineAt(s, e)
    requires forall k :: i <= k < e ==> s[k] != '\n'
    ensures LineEnd(s, i) == e
    decreases e - i
  {
    if i < e {
      LineEndStops(s, i + 1, e);
    }
  }

  /**
   * Where Ruby's multi-line `^` matches: the start of the string and the
   * position after a line feed, but not the end of the string.
   */
  predicate IsLineStart(s: string, p: nat) {
    p == 0 || (0 < p < |s| && s[p - 1] == '\n')
  }

  /** A line as each_line yields it: non-empty, with a line feed at most as its last character. */
  predicate IsPhysicalLine(l: string) {
    l != [] && forall j :: 0 <= j < |l| - 1 ==> l[j] != '\n'
  }

  /**
   * The lines of `s` as IO#each_line and IO#readlines give them: each piece
   * ends just after a line feed, and a last piece without one is kept.
   */
  function Lines(s: string): (r: seq<string>)
    ensures forall k :: 0 <= k < |r| ==> IsPhysicalLine(r[k])
    ensures forall k :: 0 <= k < |r| - 1 ==> EndsWithNewline(r[k])
    decreases |s|
  {
    if s == [] then []
    else
      var e := LineEnd(s, 0);
      if e == |s| then [s] else [s[..e + 1]] + Lines(s[e + 1..])
  }

  lemma {:induction false} LinesConcat(s: string)
    ensures Concat(Lines(s)) == s
    decreases |s|
  {
    if s != [] {
      var e := LineEnd(s, 0);
      if e < |s| {
        LinesConcat(s[e + 1..]);
        assert s == s[..e + 1] + s[e + 1..];
      }
    }
  }

  lemma LineEndAppend(a: string, b: string, i: nat)
    requires i < |a| && EndsWithNewline(a)
    ensures LineEnd(a + b, i) == LineEnd(a, i) < |a|
    decreases |a| - i
  {
    assert (a + b)[i] == a[i];
    if a[i] != '\n' {
      LineEndAppend(a, b, i + 1);
    }
  }

  /** Splitting is compositional at a line boundary. */
  lemma {:induction false} LinesAppend(a: string, b: string)
    requires a == [] || EndsWithNewline(a)
    ensures Lines(a + b) == Lines(a) + Lines(b)
    decreases |a|
  {
    if a != [] {
      var e := LineEnd(a, 0);
      LineEndAppend(a, b, 0);
      var t := a[e + 1..];
      assert Lines(a + b) == [a[..e + 1]] + Lines(t + b) by {
        assert (a + b)[..e + 1] == a[..e + 1];
        assert (a + b)[e + 1..] == t + b;
      }
      if e + 1 < |a| {
        assert Lines(a) == [a[..e + 1]] + Lines(t);
        assert t[|t| - 1] == a[|a| - 1];
        LinesAppend(t, b);
        ConsAssoc(a[..e + 1], Lines(t), Lines(b));
      } else {
        assert t == [] && a[..e + 1] == a;
        assert Lines(a) == [a] + [];
        assert t + b == b;
        ConsAssoc(a, [], Lines(b));
      }
    } else {
      assert a + b == b;
    }
  }

  lemma ConsAssoc<T>(x: T, u: seq<T>, v: seq<T>)
    ensures [x] + (u + v) == ([x] + u) + v
  {
  }

  /** A physical line is one line of its own. */
  lemma LinesOfPhysicalLine(l: string)
    requires IsPhysicalLine(l)
    ensures Lines(l) == [l]
  {
    var e := LineEnd(l, 0);
    if e < |l| {
      assert e == |l| - 1;
      assert l[..e + 1] == l;
      assert l[e + 1..] == [];
    }
  }

  /**
   * A non-empty prefix without a line feed stays at the head of the first line.
   */
  lemma LinesFirstPrefix(p: string, q: string)
    requires p != [] && !HasNewline(p)
    ensures |Lines(p + q)| > 0 && |p| <= |Lines(p + q)[0]| && Lines(p + q)[0][..|p|] == p
  {
    var s := p + q;
    var e := LineEnd(s, 0);
    assert forall j :: 0 <= j < |p| ==> s[j] == p[j] && s[j] != '\n';
  }
}
