// Historian::CommitMessage: the decoder of one commit line. A line carrying a
// token "<T><#?>:<rest>" (T one of ! b m M) at the start of a line, whose rest
// holds an ASCII letter or digit, has a significance; every other line passes
// through unchanged.

module CommitMessages {
  import opened Wrappers
  import opened Text

  datatype Significance = Patch | Minor | Major | Release

  /**
   * What the constructor leaves behind: `@token` (the token character, or nil),
   * `@suppressed` (set when the "#" marker was present) and `@line` (group 3
   * of the token regex when it matched, the whole input otherwise).
   */
  datatype CommitMessage = CommitMessage(token: Option<char>, suppressed: bool, line: string)

  predicate IsTokenChar(c: char) {
    c == '!' || c == 'b' || c == 'm' || c == 'M'
  }

  predicate HasAlnum(s: string) {
    exists i :: 0 <= i < |s| && IsAlnum(s[i])
  }

  /** A decoded message as the token regex can produce it. */
  predicate WellFormed(m: CommitMessage) {
    m.token.Some? && IsTokenChar(m.token.value) && HasAlnum(m.line) && !HasNewline(m.line)
  }

  /** The text a decoded message was read from: token, optional "#", colon, remainder. */
  function Encode(m: CommitMessage): string
    requires m.token.Some?
  {
    [m.token.value] + (if m.suppressed then "#" else "") + ":" + m.line
  }

  /** The token regex `^([!bmM])(#?):(.*[0-9a-zA-Z].*)$` tried at position p. */
  function MatchAt(s: string, p: nat): (r: Option<CommitMessage>)
    requires p <= |s|
    ensures r.Some? ==> WellFormed(r.value) && OccursAt(s, Encode(r.value), p)
                        && EndsLineAt(s, p + |Encode(r.value)|)
  {
    if p + 2 > |s| || !IsTokenChar(s[p]) then None
    else
      var suppressed := s[p + 1] == '#';
      var colon := if suppressed then p + 2 else p + 1;
      if colon >= |s| || s[colon] != ':' then None
      else
        var e := LineEnd(s, colon + 1);
        var rest := s[colon + 1..e];
        if HasAlnum(rest) then
          var m := CommitMessage(Some(s[p]), suppressed, rest);
          assert forall j :: 0 <= j < |rest| ==> rest[j] == s[colon + 1 + j] != '\n';
          assert s[p..colon + 1] == [s[p]] + (if suppressed then "#" else "") + ":";
          assert s[p..e] == s[p..colon + 1] + s[colon + 1..e];
          Some(m)
        else None
  }

  /** The token regex can match at p in exactly one way. */
  lemma MatchAtExactly(s: string, p: nat, m: CommitMessage)
    requires p <= |s|
    requires WellFormed(m) && OccursAt(s, Encode(m), p) && EndsLineAt(s, p + |Encode(m)|)
    ensures MatchAt(s, p) == Some(m)
  {
    var colon := if m.suppressed then p + 2 else p + 1;
    var e := p + |Encode(m)|;
    TokenParts(s, p, m);
    assert forall k :: colon + 1 <= k < e ==> s[k] == m.line[k - (colon + 1)] != '\n';
    LineEndStops(s, colon + 1, e);
    MatchAtParts(s, p, colon, e);
  }

  /** The regex matches at p once its token, its colon and the end of its line are known. */
  lemma MatchAtParts(s: string, p: nat, colon: nat, e: nat)
    requires p + 2 <= |s| && IsTokenChar(s[p])
    requires colon == (if s[p + 1] == '#' then p + 2 else p + 1)
    requires colon < |s| && s[colon] == ':'
    requires colon + 1 <= e <= |s| && LineEnd(s, colon + 1) == e && HasAlnum(s[colon + 1..e])
    ensures MatchAt(s, p) == Some(CommitMessage(Some(s[p]), s[p + 1] == '#', s[colon + 1..e]))
  {
  }

  /** Where an encoded message occurs, its token, its "#", its colon and its text are in their places. */
  lemma TokenParts(s: string, p: nat, m: CommitMessage)
    requires m.token.Some? && OccursAt(s, Encode(m), p)
    ensures var colon := if m.suppressed then p + 2 else p + 1;
            colon < |s| && s[p] == m.token.value && (s[p + 1] == '#') == m.suppressed && s[colon] == ':'
            && s[colon + 1..p + |Encode(m)|] == m.line
  {
    var tok := [m.token.value] + (if m.suppressed then "#" else "") + ":";
    var colon := if m.suppressed then p + 2 else p + 1;
    assert Encode(m) == tok + m.line && |tok| == colon + 1 - p;
    SliceOfJoin(s, p, tok, m.line);
    assert s[p] == tok[0] && s[p + 1] == tok[1] && s[colon] == tok[colon - p];
  }

  /** A joined needle occurring at p: each part occurs in its place. */
  lemma SliceOfJoin(s: string, p: nat, a: string, b: string)
    requires p + |a| + |b| <= |s| && s[p..p + |a + b|] == a + b
    ensures s[p..p + |a|] == a && s[p + |a|..p + |a| + |b|] == b
  {
    assert s[p..p + |a|] == (a + b)[..|a|];
    assert s[p + |a|..p + |a| + |b|] == (a + b)[|a|..];
  }

  /**
   * The leftmost match of the token regex at a line start at or after `start`
   * (Ruby's `^` and `$` match at every line boundary): None when no line
   * start from `start` on matches, and otherwise the match at the first line
   * start that does.
   */
  function MatchFrom(s: string, start: nat): (r: Option<CommitMessage>)
    requires start <= |s| && IsLineStart(s, start)
    ensures r.None? ==> forall p :: start <= p <= |s| && IsLineStart(s, p) ==> MatchAt(s, p).None?
    ensures r.Some? ==> exists p :: start <= p <= |s| && IsLineStart(s, p) && MatchAt(s, p) == r
                                    && forall q :: start <= q < p && IsLineStart(s, q) ==> MatchAt(s, q).None?
    decreases |s| - start
  {
    match MatchAt(s, start)
    case Some(m) => Some(m)
    case None =>
      var e := LineEnd(s, start);
      NoMatchToLineEnd(s, start, e);
      if e + 1 < |s| then
        var r := MatchFrom(s, e + 1);
        if r.Some? then LeftmostFrom(s, start, e + 1, r); r else r
      else None
  }

  /** No line start from a line start `start` without a match up to its line end matches. */
  lemma NoMatchToLineEnd(s: string, start: nat, e: nat)
    requires start <= |s| && MatchAt(s, start).None? && e == LineEnd(s, start)
    ensures forall q :: start <= q <= e && q <= |s| && IsLineStart(s, q) ==> MatchAt(s, q).None?
  {
    forall q | start < q <= e && q <= |s|
      ensures !IsLineStart(s, q)
    {
      assert s[q - 1] != '\n';
    }
  }

  /** A leftmost match from `next` is leftmost from `start` when nothing in between matches. */
  lemma LeftmostFrom(s: string, start: nat, next: nat, r: Option<CommitMessage>)
    requires start <= next <= |s|
    requires forall q :: start <= q < next && IsLineStart(s, q) ==> MatchAt(s, q).None?
    requires exists p :: next <= p <= |s| && IsLineStart(s, p) && MatchAt(s, p) == r
                         && forall q :: next <= q < p && IsLineStart(s, q) ==> MatchAt(s, q).None?
    ensures exists p :: start <= p <= |s| && IsLineStart(s, p) && MatchAt(s, p) == r
                        && forall q :: start <= q < p && IsLineStart(s, q) ==> MatchAt(s, q).None?
  {
    var p :| next <= p <= |s| && IsLineStart(s, p) && MatchAt(s, p) == r
             && forall q :: next <= q < p && IsLineStart(s, q) ==> MatchAt(s, q).None?;
    assert forall q :: start <= q < p && IsLineStart(s, q) ==> MatchAt(s, q).None?;
  }

  /**
   * Historian::CommitMessage.new (and parse_line): a token is only ever read
   * at the start of a line of the input, and a line without one passes through.
   */
  function Parse(line: string): (m: CommitMessage)
    ensures m.token.None? ==> m.line == line && !m.suppressed
    ensures m.token.None? ==> forall p :: 0 <= p <= |line| && IsLineStart(line, p) ==> MatchAt(line, p).None?
    ensures m.token.Some? ==> WellFormed(m)
    ensures m.token.Some? ==> exists p :: 0 <= p <= |line| && IsLineStart(line, p) && MatchAt(line, p) == Some(m)
                                && forall q :: 0 <= q < p && IsLineStart(line, q) ==> MatchAt(line, q).None?
    ensures m.token.Some? ==> exists p :: 0 <= p <= |line| && IsLineStart(line, p)
                                && OccursAt(line, Encode(m), p) && EndsLineAt(line, p + |Encode(m)|)
  {
    match MatchFrom(line, 0)
    case Some(found) => found
    case None => CommitMessage(None, false, line)
  }

  /** Decoding the text of a well-formed token line gives that message back. */
  lemma DecodeEncode(m: CommitMessage)
    requires WellFormed(m)
    ensures Parse(Encode(m)) == m
  {
    var s := Encode(m);
    assert s[0..|s|] == s;
    MatchAtExactly(s, 0, m);
  }

  /** On a single line, a decoded token line is exactly token, marker, colon and remainder. */
  lemma {:induction false} EncodeDecode(line: string)
    requires !HasNewline(line) && Parse(line).token.Some?
    ensures Encode(Parse(line)) == line
  {
    var m := Parse(line);
    var p :| 0 <= p <= |line| && IsLineStart(line, p) && OccursAt(line, Encode(m), p)
             && EndsLineAt(line, p + |Encode(m)|);
    assert p == 0;
    assert p + |Encode(m)| == |line|;
    assert line[0..|line|] == line;
  }

  /**
   * A single line has a significance exactly when it is some well-formed token
   * line; in particular a token not at the start, or a remainder without a
   * letter or digit, leaves the line without one.
   */
  lemma SingleLineDecode(line: string)
    requires !HasNewline(line)
    ensures Parse(line).token.Some? <==> exists m :: WellFormed(m) && Encode(m) == line
  {
    if Parse(line).token.Some? {
      EncodeDecode(line);
    }
    if m :| WellFormed(m) && Encode(m) == line {
      DecodeEncode(m);
    }
  }

  /** The line a token character stands for. */
  function TokenChar(g: Significance): char {
    match g
    case Patch => 'b'
    case Minor => 'm'
    case Major => 'M'
    case Release => '!'
  }

  /** #significance: b is a patch, m minor, M major, ! a release, and nothing without a token. */
  function SignificanceOf(m: CommitMessage): (r: Option<Significance>)
    ensures forall g :: r == Some(g) <==> m.token == Some(TokenChar(g))
    ensures r.None? <==> m.token.None? || !IsTokenChar(m.token.value)
  {
    match m.token
    case None => None
    case Some(c) =>
      if c == 'b' then Some(Patch)
      else if c == 'm' then Some(Minor)
      else if c == 'M' then Some(Major)
      else if c == '!' then Some(Release)
      else None
  }

  /** #suppressed?: only a matched token line can carry the "#" marker. */
  predicate Suppressed(line: string)
    ensures Suppressed(line) ==> SignificanceOf(Parse(line)).Some?
  {
    Parse(line).suppressed
  }

  /** #to_s: the remainder after the colon when a token matched, the line itself otherwise. */
  function ToS(line: string): (r: string)
    ensures SignificanceOf(Parse(line)).None? ==> r == line
    ensures SignificanceOf(Parse(line)).Some? ==> HasAlnum(r) && !HasNewline(r)
  {
    Parse(line).line
  }

  // gsub of `^\W*` by "" on a single line: drops the leading run of non-word characters.
  function StripLeadingNonWord(s: string): (r: string)
    ensures |r| <= |s| && r == s[|s| - |r|..]
    ensures forall i :: 0 <= i < |s| - |r| ==> !IsWordChar(s[i])
    ensures r != [] ==> IsWordChar(r[0])
  {
    if s == [] || IsWordChar(s[0]) then s else StripLeadingNonWord(s[1..])
  }

  /**
   * #to_message_s: nil without a token, otherwise the remainder with its leading
   * non-word run removed; since the remainder holds a letter or digit, the
   * message is never empty.
   */
  function ToMessageS(line: string): (r: Option<string>)
    ensures r.Some? <==> SignificanceOf(Parse(line)).Some?
    ensures r.Some? ==> r.value != [] && IsWordChar(r.value[0])
                        && |r.value| <= |ToS(line)| && r.value == ToS(line)[|ToS(line)| - |r.value|..]
  {
    var m := Parse(line);
    if SignificanceOf(m).Some? then
      StripKeepsAlnum(m.line);
      Some(StripLeadingNonWord(m.line))
    else None
  }

  lemma StripKeepsAlnum(s: string)
    requires HasAlnum(s)
    ensures StripLeadingNonWord(s) != []
  {
    var i :| 0 <= i < |s| && IsAlnum(s[i]);
    assert IsWordChar(s[i]);
  }
}
