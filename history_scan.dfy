// The line recognisers and the three-state line scan of HistoryFile#parse.
// Every recogniser is applied to one line as IO#each_line yields it, so Ruby's
// `^` can only match at the start of that line and `$` only at its end or
// before its final line feed.

module HistoryLines {
  import opened Wrappers
  import opened Text
  import opened HistoryModel

  /** The longest run of digits at the front of `s`, and what follows it. */
  function SplitDigits(s: string): (r: (string, string))
    ensures r.0 + r.1 == s && AllDigits(r.0)
    ensures r.1 == [] || !IsDigit(r.1[0])
  {
    if s == [] || !IsDigit(s[0]) then ([], s)
    else
      var (d, rest) := SplitDigits(s[1..]);
      DigitsCons(s, d, rest);
      ([s[0]] + d, rest)
  }

  /** A digit in front of a digit run is a longer digit run. */
  lemma DigitsCons(s: string, d: string, rest: string)
    requires s != [] && IsDigit(s[0]) && AllDigits(d) && d + rest == s[1..]
    ensures AllDigits([s[0]] + d) && ([s[0]] + d) + rest == s
  {
    assert s == [s[0]] + s[1..];
  }

  /** A greedy digit run ends at the first character that is not a digit. */
  lemma {:induction false} SplitDigitsOf(d: string, rest: string)
    requires AllDigits(d)
    requires rest == [] || !IsDigit(rest[0])
    ensures SplitDigits(d + rest) == (d, rest)
  {
    if d != [] {
      assert (d + rest)[0] == d[0];
      assert (d + rest)[1..] == d[1..] + rest;
      SplitDigitsOf(d[1..], rest);
      assert [d[0]] + d[1..] == d;
    } else {
      assert d + rest == rest;
    }
  }

  /** The groups of a release heading: the version and the rest of the line. */
  datatype Heading = Heading(version: VersionText, rest: string)

  /**
   * `^== ([0-9]+\.[0-9]+\.[0-9]+)(.*)`: "== " and three digit runs joined by
   * dots, each run ending at the first non-digit; the rest runs up to the
   * line feed.
   */
  function ReleaseHeading(line: string): (r: Option<Heading>)
    ensures r.Some? ==> IsVersionText(r.value.version) && !HasNewline(r.value.rest)
  {
    if |line| < 3 || line[..3] != "== " then None
    else
      var (d1, r1) := SplitDigits(line[3..]);
      if d1 == [] || r1 == [] || r1[0] != '.' then None
      else
        var (d2, r2) := SplitDigits(r1[1..]);
        if d2 == [] || r2 == [] || r2[0] != '.' then None
        else
          var (d3, r3) := SplitDigits(r2[1..]);
          if d3 == [] then None
          else Some(Heading(VersionText(d1, d2, d3), r3[..LineEnd(r3, 0)]))
  }

  /**
   * Any line that begins with "== " and a version, followed by something other
   * than a digit, is a release heading with that version; its rest is what
   * follows the version up to the line feed.
   */
  lemma ReleaseHeadingOf(line: string, v: VersionText, t: string)
    requires IsVersionText(v)
    requires t == [] || !IsDigit(t[0])
    requires line == "== " + VersionString(v) + t
    ensures ReleaseHeading(line) == Some(Heading(v, t[..LineEnd(t, 0)]))
  {
    var r2 := "." + (v.patch + t);
    var r1 := "." + (v.minor + r2);
    HeadingParts(line, v, t);
    SplitDigitsOf(v.major, r1);
    SplitAfterDot(r1, v.minor, r2);
    SplitAfterDot(r2, v.patch, t);
    ReleaseHeadingSplit(line, v.major, r1, v.minor, r2, v.patch, t);
  }

  /** The line of a heading, cut after "== " into its version runs. */
  lemma HeadingParts(line: string, v: VersionText, t: string)
    requires line == "== " + VersionString(v) + t
    ensures |line| >= 3 && line[..3] == "== "
    ensures line[3..] == v.major + ("." + (v.minor + ("." + (v.patch + t))))
  {
    assert line == "== " + (v.major + ("." + (v.minor + ("." + (v.patch + t)))));
  }

  /** After a dot, the digit run up to the first non-digit. */
  lemma SplitAfterDot(x: string, d: string, rest: string)
    requires x == "." + (d + rest) && AllDigits(d) && (rest == [] || !IsDigit(rest[0]))
    ensures x != [] && x[0] == '.' && SplitDigits(x[1..]) == (d, rest)
  {
    assert x[1..] == d + rest;
    SplitDigitsOf(d, rest);
  }

  /** The heading recogniser, once its three digit runs are known. */
  lemma ReleaseHeadingSplit(line: string, d1: string, r1: string, d2: string, r2: string,
                            d3: string, r3: string)
    requires |line| >= 3 && line[..3] == "== "
    requires SplitDigits(line[3..]) == (d1, r1) && d1 != [] && r1 != [] && r1[0] == '.'
    requires SplitDigits(r1[1..]) == (d2, r2) && d2 != [] && r2 != [] && r2[0] == '.'
    requires SplitDigits(r2[1..]) == (d3, r3) && d3 != []
    ensures ReleaseHeading(line) == Some(Heading(VersionText(d1, d2, d3), r3[..LineEnd(r3, 0)]))
  {
  }

  /** The end of the line seen from inside a suffix. */
  lemma LineEndShift(s: string, c: nat, t: string)
    requires c <= |s| && s[c..] == t
    ensures LineEnd(s, c) == c + LineEnd(t, 0) && s[c..LineEnd(s, c)] == t[..LineEnd(t, 0)]
  {
    var e := LineEnd(t, 0);
    assert forall k :: c <= k < c + e ==> s[k] == t[k - c] != '\n';
    assert c + e < |s| ==> s[c + e] == t[e];
    LineEndStops(s, c, c + e);
  }

  /** `^=== <title>$` for the section title of `b` (`^=== Bugfixes$` for the patch section). */
  predicate IsSectionHeading(line: string, b: Bucket) {
    line == "=== " + SectionTitle(b) || line == "=== " + SectionTitle(b) + "\n"
  }

  /** `^=== Bugfixes$`, the only section heading parse reacts to. */
  predicate IsBugfixesHeading(line: string) {
    IsSectionHeading(line, Patch)
  }

  /** `^\* (.+)$`: the non-empty text after "* " up to the line feed. */
  function EntryOf(line: string): (r: Option<string>)
    ensures r.Some? ==> r.value != [] && !HasNewline(r.value) && OccursAt(line, "* " + r.value, 0)
    ensures r.Some? ==> EndsLineAt(line, 2 + |r.value|)
  {
    if |line| < 2 || line[..2] != "* " then None
    else
      var e := LineEnd(line, 2);
      if e == 2 then None
      else
        assert line[..e] == line[..2] + line[2..e];
        Some(line[2..e])
  }

  /** An entry line as the changelog writes it reads back as its entry. */
  lemma EntryOfBullet(entry: string, tail: string)
    requires entry != [] && !HasNewline(entry)
    requires tail == [] || tail == "\n"
    ensures EntryOf("* " + entry + tail) == Some(entry)
  {
    var line := "* " + entry + tail;
    assert line[..2] == "* ";
    assert line[2..] == entry + tail;
    LineEndShift(line, 2, entry + tail);
    assert forall k :: 0 <= k < |entry| ==> (entry + tail)[k] == entry[k] != '\n';
    LineEndStops(entry + tail, 0, |entry|);
    assert (entry + tail)[..|entry|] == entry;
  }

  /** `[0-9]{4}/[0-9]{2}/[0-9]{2}`, the date format "%Y/%m/%d" writes. */
  predicate IsDate(d: string) {
    |d| == 10 && IsDigit(d[0]) && IsDigit(d[1]) && IsDigit(d[2]) && IsDigit(d[3]) && d[4] == '/'
    && IsDigit(d[5]) && IsDigit(d[6]) && d[7] == '/' && IsDigit(d[8]) && IsDigit(d[9])
  }

  /** " - " followed by a date, at position j. */
  predicate DateAt(r: string, j: nat) {
    j + 13 <= |r| && r[j..j + 3] == " - " && IsDate(r[j + 3..j + 13])
  }

  /** The last position below k where a dated suffix starts. */
  function LastDateBefore(r: string, k: nat): (o: Option<nat>)
    ensures o.Some? ==> o.value < k && DateAt(r, o.value)
    ensures o.Some? ==> forall j :: o.value < j < k ==> !DateAt(r, j)
    ensures o.None? ==> forall j :: 0 <= j < k ==> !DateAt(r, j)
  {
    if k == 0 then None
    else if DateAt(r, k - 1) then Some(k - 1)
    else LastDateBefore(r, k - 1)
  }

  /** The first space at or after i and below k. */
  function FirstSpace(r: string, i: nat, k: nat): (o: Option<nat>)
    requires k <= |r|
    ensures o.Some? ==> i <= o.value < k && r[o.value] == ' '
    ensures o.Some? ==> forall j :: i <= j < o.value ==> r[j] != ' '
    ensures o.None? ==> forall j :: i <= j < k ==> r[j] != ' '
    decreases k - i
  {
    if i >= k then None
    else if r[i] == ' ' then Some(i)
    else FirstSpace(r, i + 1, k)
  }

  /**
   * `%r{ (.*) - [0-9]{4}/[0-9]{2}/[0-9]{2}}` matched against the rest of a
   * heading line (which holds no line feed): the leftmost space that has a
   * dated suffix after it starts the match, and the greedy group runs to the
   * last dated suffix.
   */
  function NameOf(rest: string): (r: Option<string>)
    ensures r.Some? <==> exists i, j :: 0 <= i < j <= |rest| && rest[i] == ' ' && DateAt(rest, j)
    ensures r.Some? ==> exists i, j :: 0 <= i < j <= |rest| && rest[i] == ' ' && DateAt(rest, j)
                                       && r.value == rest[i + 1..j]
                                       && (forall i' :: 0 <= i' < i ==> rest[i'] != ' ')
                                       && (forall j' :: j < j' <= |rest| ==> !DateAt(rest, j'))
  {
    match LastDateBefore(rest, |rest| + 1)
    case None => None
    case Some(j) =>
      match FirstSpace(rest, 0, j)
      case None => None
      case Some(i) => Some(rest[i + 1..j])
  }

  /** A heading written for a named release reads back that name. */
  lemma NameOfNamed(name: string, date: string)
    requires IsDate(date)
    ensures NameOf(" " + name + " - " + date) == Some(name)
  {
    var rest := " " + name + " - " + date;
    var j := |name| + 1;
    assert rest[j..j + 3] == " - " && rest[j + 3..j + 13] == date;
    assert DateAt(rest, j);
    assert LastDateBefore(rest, |rest| + 1) == Some(j);
    assert rest[0] == ' ';
    assert rest[1..j] == name;
  }

  /** A heading written for an unnamed release carries no name. */
  lemma NameOfAnonymous(date: string)
    requires IsDate(date)
    ensures NameOf(" - " + date) == None
  {
    var rest := " - " + date;
    assert forall j :: 0 < j <= |rest| ==> !DateAt(rest, j);
  }

  /** What the branches of parse can see in one line, in the order they test it. */
  datatype LineKind =
    | ReleaseLine(version: VersionText, name: Option<string>)
    | BugfixesLine
    | EntryLine(entry: string)
    | OtherLine

  /**
   * The release-heading test first (with the name test on its rest), then
   * `=== Bugfixes`, then the entry test: the order of the `when` clauses.
   */
  function KindOf(line: string): (k: LineKind)
    ensures k.ReleaseLine? <==> ReleaseHeading(line).Some?
    ensures k.ReleaseLine? ==> k.version == ReleaseHeading(line).value.version && IsVersionText(k.version)
  {
    match ReleaseHeading(line)
    case Some(h) => ReleaseLine(h.version, NameOf(h.rest))
    case None =>
      if IsBugfixesHeading(line) then BugfixesLine
      else
        match EntryOf(line)
        case Some(e) => EntryLine(e)
        case None => OtherLine
  }

  /** A line together with what the recognisers found in it. */
  datatype ParsedLine = ParsedLine(text: string, kind: LineKind)

  function ClassifyAll(lines: seq<string>): (ps: seq<ParsedLine>)
    ensures |ps| == |lines|
  {
    seq(|lines|, i requires 0 <= i < |lines| => ParsedLine(lines[i], KindOf(lines[i])))
  }
}

// The three-state line scan of HistoryFile#parse, over classified lines, and
// what it computes.

module HistoryScan {
  import opened Wrappers
  import opened Text
  import opened HistoryModel
  import opened HistoryLines

  /** The states of HistoryFile#parse. */
  datatype Phase = GatheringCurrentHistory | GatheringPreviousReleaseLog | GatheringRemainder

  /**
   * What parse carries from line to line: its state and current significance,
   * and the values it accumulates in `@changes`, `@buffer`, `@release_log`,
   * `@current_version` and `@current_release_name`.
   */
  datatype ScanState = ScanState(phase: Phase, significance: Option<Bucket>, changes: Changes,
                                 buffer: seq<string>, logLines: seq<string>,
                                 version: Option<VersionText>, name: Option<string>)

  /** An entry line read while no significance is set: `changes[nil] << $1` raises. */
  datatype ParseError = EntryWithoutSection(entry: string)

  /** The state parse starts from, over the values already held by the object. */
  function Start(changes: Changes, version: Option<VersionText>, name: Option<string>): ScanState {
    ScanState(GatheringCurrentHistory, None, changes, [], [], version, name)
  }

  /** One iteration of the each_line block of parse. */
  function Step(st: ScanState, p: ParsedLine): (r: Result<ScanState, ParseError>)
    ensures r.Err? ==> st.phase == GatheringCurrentHistory && p.kind.EntryLine? && st.significance.None?
    ensures r.Ok? ==> r.value.buffer == st.buffer || r.value.buffer == st.buffer + [p.text]
  {
    match st.phase
    case GatheringCurrentHistory =>
      (match p.kind
       case ReleaseLine(v, n) =>
         Ok(st.(phase := GatheringPreviousReleaseLog, logLines := st.logLines + [p.text],
                buffer := st.buffer + [p.text], version := Some(v),
                name := if n.Some? then n else st.name))
       case BugfixesLine => Ok(st.(significance := Some(Patch)))
       case EntryLine(e) =>
         if st.significance.None? then Err(EntryWithoutSection(e))
         else Ok(st.(changes := st.changes.Append(st.significance.value, e)))
       case OtherLine => Ok(st))
    case GatheringPreviousReleaseLog =>
      if p.kind.ReleaseLine? then
        Ok(st.(phase := GatheringRemainder, buffer := st.buffer + [p.text]))
      else
        Ok(st.(logLines := st.logLines + [p.text], buffer := st.buffer + [p.text]))
    case GatheringRemainder =>
      Ok(st.(buffer := st.buffer + [p.text]))
  }

  /** The each_line loop of parse: the lines in order, stopping at the first error. */
  function Scan(ps: seq<ParsedLine>, st: ScanState): Result<ScanState, ParseError> {
    if ps == [] then Ok(st)
    else
      match Step(st, ps[0])
      case Err(e) => Err(e)
      case Ok(next) => Scan(ps[1..], next)
  }

  /** Continuing a scan result over more lines. */
  function Then(r: Result<ScanState, ParseError>, ps: seq<ParsedLine>): Result<ScanState, ParseError> {
    match r
    case Err(e) => Err(e)
    case Ok(st) => Scan(ps, st)
  }

  /** Scanning is compositional: two pieces scan as their concatenation. */
  lemma {:induction false} ScanAppend(a: seq<ParsedLine>, b: seq<ParsedLine>, st: ScanState)
    ensures Scan(a + b, st) == Then(Scan(a, st), b)
    decreases |a|
  {
    if a == [] {
      assert a + b == b;
    } else {
      assert (a + b)[0] == a[0];
      assert (a + b)[1..] == a[1..] + b;
      match Step(st, a[0])
      case Err(e) =>
      case Ok(next) => ScanAppend(a[1..], b, next);
    }
  }

  /** The texts of classified lines. */
  function Texts(ps: seq<ParsedLine>): (r: seq<string>)
  {
    if ps == [] then [] else [ps[0].text] + Texts(ps[1..])
  }

  /** Classifying keeps the lines: their texts are the lines themselves. */
  lemma {:induction false} TextsOfClassified(lines: seq<string>)
    ensures Texts(ClassifyAll(lines)) == lines
    decreases |lines|
  {
    if lines != [] {
      assert ClassifyAll(lines)[1..] == ClassifyAll(lines[1..]);
      TextsOfClassified(lines[1..]);
    }
  }

  lemma {:induction false} TextsAppend(a: seq<ParsedLine>, b: seq<ParsedLine>)
    ensures Texts(a + b) == Texts(a) + Texts(b)
    decreases |a|
  {
    if a == [] {
      assert a + b == b;
    } else {
      assert (a + b)[0] == a[0] && (a + b)[1..] == a[1..] + b;
      TextsAppend(a[1..], b);
    }
  }

  /** The index of the first release heading, or the number of lines when there is none. */
  function FindHeading(ps: seq<ParsedLine>): (k: nat)
    ensures k <= |ps|
    ensures forall i :: 0 <= i < k ==> !ps[i].kind.ReleaseLine?
    ensures k < |ps| ==> ps[k].kind.ReleaseLine?
  {
    if ps == [] then 0
    else if ps[0].kind.ReleaseLine? then 0
    else 1 + FindHeading(ps[1..])
  }

  /** After the second heading everything is copied to the buffer. */
  lemma {:induction false} ScanRemainder(ps: seq<ParsedLine>, st: ScanState)
    requires st.phase == GatheringRemainder
    ensures Scan(ps, st) == Ok(st.(buffer := st.buffer + Texts(ps)))
    decreases |ps|
  {
    if ps != [] {
      var next := st.(buffer := st.buffer + [ps[0].text]);
      assert Scan(ps, st) == Scan(ps[1..], next);
      ScanRemainder(ps[1..], next);
      assert Texts(ps) == [ps[0].text] + Texts(ps[1..]);
      assert st.buffer + [ps[0].text] + Texts(ps[1..]) == st.buffer + Texts(ps);
    } else {
      assert Texts(ps) == [];
      assert st.buffer + Texts(ps) == st.buffer;
    }
  }

  /**
   * While gathering the previous release, every line goes to the buffer and
   * the lines before the next heading go to the release log.
   */
  lemma {:induction false} ScanPrevious(ps: seq<ParsedLine>, st: ScanState)
    requires st.phase == GatheringPreviousReleaseLog
    ensures var k := FindHeading(ps);
            Scan(ps, st)
            == Ok(st.(phase := if k < |ps| then GatheringRemainder else GatheringPreviousReleaseLog,
                      buffer := st.buffer + Texts(ps), logLines := st.logLines + Texts(ps[..k])))
    decreases |ps|
  {
    if ps != [] {
      var next := Step(st, ps[0]).value;
      assert Scan(ps, st) == Scan(ps[1..], next);
      assert Texts(ps) == [ps[0].text] + Texts(ps[1..]);
      assert st.buffer + [ps[0].text] + Texts(ps[1..]) == st.buffer + Texts(ps);
      if ps[0].kind.ReleaseLine? {
        ScanRemainder(ps[1..], next);
        assert Texts(ps[..0]) == [];
        assert st.logLines + Texts(ps[..0]) == st.logLines;
      } else {
        ScanPrevious(ps[1..], next);
        var k := FindHeading(ps[1..]);
        assert ps[..k + 1][0] == ps[0] && ps[..k + 1][1..] == ps[1..][..k];
        assert Texts(ps[..k + 1]) == [ps[0].text] + Texts(ps[1..][..k]);
        assert st.logLines + [ps[0].text] + Texts(ps[1..][..k]) == st.logLines + Texts(ps[..k + 1]);
      }
    } else {
      assert Texts(ps) == [] && Texts(ps[..0]) == [];
      assert st.buffer + Texts(ps) == st.buffer && st.logLines + Texts(ps[..0]) == st.logLines;
    }
  }

  /**
   * Before the first heading nothing is buffered or logged and the version and
   * name stay as they were.
   */
  lemma {:induction false} ScanBeforeHeading(ps: seq<ParsedLine>, st: ScanState)
    requires st.phase == GatheringCurrentHistory
    requires forall i :: 0 <= i < |ps| ==> !ps[i].kind.ReleaseLine?
    ensures Scan(ps, st).Ok? ==>
              var r := Scan(ps, st).value;
              r.phase == GatheringCurrentHistory && r.buffer == st.buffer && r.logLines == st.logLines
              && r.version == st.version && r.name == st.name
    decreases |ps|
  {
    if ps != [] {
      match Step(st, ps[0])
      case Err(_) =>
      case Ok(next) => ScanBeforeHeading(ps[1..], next);
    }
  }

  /** From a release heading on, the scan cannot fail and reads that heading's release. */
  lemma ScanFromHeading(rest: seq<ParsedLine>, mid: ScanState)
    requires mid.phase == GatheringCurrentHistory && rest != [] && rest[0].kind.ReleaseLine?
    ensures var h := rest[0].kind;
            var r := Scan(rest, mid);
            r.Ok? && r.value.buffer == mid.buffer + Texts(rest)
            && r.value.logLines == mid.logLines + Texts(rest[..1 + FindHeading(rest[1..])])
            && r.value.version == Some(h.version)
            && r.value.name == (if h.name.Some? then h.name else mid.name)
            && r.value.changes == mid.changes
  {
    var t := rest[0].text;
    var next := Step(mid, rest[0]).value;
    assert next.buffer == mid.buffer + [t] && next.logLines == mid.logLines + [t];
    assert Scan(rest, mid) == Scan(rest[1..], next);
    ScanPrevious(rest[1..], next);
    var k2 := FindHeading(rest[1..]);
    TextsHead(rest, mid.buffer, |rest| - 1);
    assert rest[1..][..|rest| - 1] == rest[1..] && rest[..1 + (|rest| - 1)] == rest;
    TextsHead(rest, mid.logLines, k2);
  }

  /** The texts of the first 1 + k lines after some earlier lines: the first line's, then the next k. */
  lemma TextsHead(ps: seq<ParsedLine>, before: seq<string>, k: nat)
    requires k < |ps|
    ensures before + [ps[0].text] + Texts(ps[1..][..k]) == before + Texts(ps[..1 + k])
  {
    assert ps[..1 + k][0] == ps[0] && ps[..1 + k][1..] == ps[1..][..k];
    assert Texts(ps[..1 + k]) == [ps[0].text] + Texts(ps[1..][..k]);
    AppendCons(before, ps[0].text, Texts(ps[1..][..k]));
  }

  lemma AppendCons<T>(a: seq<T>, x: T, b: seq<T>)
    ensures a + [x] + b == a + ([x] + b)
  {
  }

  /**
   * The whole of parse from its start state: an error can only come from the
   * lines before the first heading; the buffer is everything from that heading
   * on, the release log the heading and the lines up to the next one, and the
   * version (and the name, when the heading carries one) are the heading's.
   */
  lemma ScanFromStart(ps: seq<ParsedLine>, st: ScanState, k: nat, k2: nat)
    requires st.phase == GatheringCurrentHistory && st.buffer == [] && st.logLines == []
    requires k == FindHeading(ps)
    requires k < |ps| ==> k2 == k + 1 + FindHeading(ps[k + 1..])
    ensures Scan(ps, st).Ok? <==> Scan(ps[..k], st).Ok?
    ensures Scan(ps, st).Ok? ==>
              Scan(ps, st).value.buffer == Texts(ps[k..]) && Scan(ps, st).value.changes == Scan(ps[..k], st).value.changes
    ensures Scan(ps, st).Ok? && k == |ps| ==>
              Scan(ps, st).value.logLines == [] && Scan(ps, st).value.version == st.version && Scan(ps, st).value.name == st.name
    ensures Scan(ps, st).Ok? && k < |ps| ==>
              Scan(ps, st).value.logLines == Texts(ps[k..k2])
              && Scan(ps, st).value.version == Some(ps[k].kind.version)
              && Scan(ps, st).value.name == (if ps[k].kind.name.Some? then ps[k].kind.name else st.name)
  {
    var pre := Scan(ps[..k], st);
    ScanSplit(ps, st, k);
    if pre.Ok? {
      var mid := pre.value;
      if k < |ps| {
        ScanAtHeading(ps, k, mid);
      } else {
        assert ps[k..] == [];
        assert Texts(ps[k..]) == [];
      }
    }
  }

  /** The scan up to the first heading, then on from it. */
  lemma ScanSplit(ps: seq<ParsedLine>, st: ScanState, k: nat)
    requires st.phase == GatheringCurrentHistory && k == FindHeading(ps)
    ensures Scan(ps, st) == Then(Scan(ps[..k], st), ps[k..])
    ensures Scan(ps[..k], st).Ok? ==>
              var r := Scan(ps[..k], st).value;
              r.phase == GatheringCurrentHistory && r.buffer == st.buffer && r.logLines == st.logLines
              && r.version == st.version && r.name == st.name
  {
    assert Scan(ps, st) == Then(Scan(ps[..k], st), ps[k..]) by {
      assert ps == ps[..k] + ps[k..];
      ScanAppend(ps[..k], ps[k..], st);
    }
    assert forall i :: 0 <= i < |ps[..k]| ==> !ps[..k][i].kind.ReleaseLine? by {
      assert forall i :: 0 <= i < |ps[..k]| ==> ps[..k][i] == ps[i];
    }
    ScanBeforeHeading(ps[..k], st);
  }

  /** ScanFromHeading on the lines from index k on, for a mid state with nothing buffered yet. */
  lemma ScanAtHeading(ps: seq<ParsedLine>, k: nat, mid: ScanState)
    requires k < |ps| && ps[k].kind.ReleaseLine?
    requires mid.phase == GatheringCurrentHistory && mid.buffer == [] && mid.logLines == []
    ensures var r := Scan(ps[k..], mid);
            r.Ok? && r.value.buffer == Texts(ps[k..]) && r.value.changes == mid.changes
            && r.value.logLines == Texts(ps[k..k + 1 + FindHeading(ps[k + 1..])])
            && r.value.version == Some(ps[k].kind.version)
            && r.value.name == (if ps[k].kind.name.Some? then ps[k].kind.name else mid.name)
  {
    var rest := ps[k..];
    assert rest[0] == ps[k] && rest[1..] == ps[k + 1..];
    ScanFromHeading(rest, mid);
    var k2 := FindHeading(ps[k + 1..]);
    assert rest[..1 + k2] == ps[k..k + 1 + k2];
    assert mid.logLines + Texts(rest[..1 + k2]) == Texts(rest[..1 + k2]);
    assert mid.buffer + Texts(rest) == Texts(rest);
  }
}
