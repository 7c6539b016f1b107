// What parse, update_history and rewrite promise about the history file:
// where parse finds the current release, which pending entries it recovers,
// how an update appends, and what a release leaves behind.

module HistoryProperties {
  import opened Wrappers
  import opened Text
  import opened HistoryModel
  import opened HistoryLines
  import opened HistoryScan
  import opened HistoryChangelog
  import opened HistoryReread
  import opened HistoryIO

  // ---------------------------------------------------------------------------
  // Pending entries before the first release heading.

  /** The entries of the entry lines, in order. */
  function EntriesOf(ps: seq<ParsedLine>): seq<string> {
    if ps == [] then []
    else (if ps[0].kind.EntryLine? then [ps[0].kind.entry] else []) + EntriesOf(ps[1..])
  }

  /** Some entry line comes before any "=== Bugfixes" line. */
  predicate EntryBeforeBugfixes(ps: seq<ParsedLine>) {
    ps != [] && (ps[0].kind.EntryLine? || (!ps[0].kind.BugfixesLine? && EntryBeforeBugfixes(ps[1..])))
  }

  /**
   * Before the first release heading the scan raises exactly when an entry
   * comes before any "=== Bugfixes" line (with no significance set yet), and
   * otherwise appends every entry to the patch bucket.
   */
  lemma {:induction false} ScanPending(ps: seq<ParsedLine>, st: ScanState)
    requires st.phase == GatheringCurrentHistory
    requires st.significance == None || st.significance == Some(Patch)
    requires forall i :: 0 <= i < |ps| ==> !ps[i].kind.ReleaseLine?
    ensures Scan(ps, st).Err? <==> st.significance.None? && EntryBeforeBugfixes(ps)
    ensures Scan(ps, st).Ok? ==> Scan(ps, st).value.changes == st.changes.Extend(Patch, EntriesOf(ps))
    decreases |ps|
  {
    if ps != [] {
      var p := ps[0];
      assert forall i :: 0 <= i < |ps[1..]| ==> ps[1..][i] == ps[i + 1];
      match p.kind {
        case BugfixesLine =>
          var next := st.(significance := Some(Patch));
          assert Scan(ps, st) == Scan(ps[1..], next);
          assert EntriesOf(ps) == EntriesOf(ps[1..]);
          ScanPending(ps[1..], next);
        case EntryLine(e) =>
          if st.significance.Some? {
            var next := st.(changes := st.changes.Append(Patch, e));
            ScanPending(ps[1..], next);
            var rest := EntriesOf(ps[1..]);
            assert ([e] + rest)[0] == e && ([e] + rest)[1..] == rest;
          }
        case OtherLine =>
          assert Scan(ps, st) == Scan(ps[1..], st);
          assert EntriesOf(ps) == EntriesOf(ps[1..]);
          ScanPending(ps[1..], st);
      }
    } else {
      assert st.changes.Extend(Patch, []) == st.changes;
    }
  }

  // ---------------------------------------------------------------------------
  // The first release heading.

  /** k is the index of the first release heading at or after `from`, or the number of lines. */
  predicate FirstHeadingAt(lines: seq<string>, from: nat, k: nat) {
    from <= k <= |lines|
    && (forall i :: from <= i < k ==> ReleaseHeading(lines[i]).None?)
    && (k < |lines| ==> ReleaseHeading(lines[k]).Some?)
  }

  /** FindHeading is the first index whose line is a release heading. */
  lemma {:induction false} FindHeadingIs(ps: seq<ParsedLine>, k: nat)
    requires k <= |ps| && forall i :: 0 <= i < k ==> !ps[i].kind.ReleaseLine?
    requires k < |ps| ==> ps[k].kind.ReleaseLine?
    ensures FindHeading(ps) == k
    decreases k
  {
    if k > 0 {
      assert forall i :: 0 <= i < k - 1 ==> ps[1..][i] == ps[i + 1];
      FindHeadingIs(ps[1..], k - 1);
    }
  }

  lemma ClassifySlice(lines: seq<string>, a: nat, b: nat)
    requires a <= b <= |lines|
    ensures ClassifyAll(lines)[a..b] == ClassifyAll(lines[a..b])
  {
  }

  lemma ClassifySuffix(lines: seq<string>, a: nat)
    requires a <= |lines|
    ensures ClassifyAll(lines)[a..] == ClassifyAll(lines[a..])
  {
  }

  /** The kind of each classified line, in terms of the recognisers. */
  lemma ClassifiedHeadings(lines: seq<string>, from: nat, k: nat)
    requires FirstHeadingAt(lines, from, k)
    ensures var ps := ClassifyAll(lines);
            (forall i :: from <= i < k ==> !ps[i].kind.ReleaseLine?)
            && (k < |ps| ==> ps[k].kind == ReleaseLine(ReleaseHeading(lines[k]).value.version,
                                                          NameOf(ReleaseHeading(lines[k]).value.rest)))
  {
  }

  /** ScanFromStart with the pending part spelled out and the next heading given as an index. */
  lemma ScanReadsFirstRelease(ps: seq<ParsedLine>, st: ScanState, k: nat, k2: nat)
    requires st.phase == GatheringCurrentHistory && st.significance.None? && st.buffer == [] && st.logLines == []
    requires k == FindHeading(ps)
    requires k < |ps| ==> k < k2 <= |ps| && k2 - (k + 1) == FindHeading(ps[k + 1..])
    ensures var r := Scan(ps, st);
            (r.Err? <==> EntryBeforeBugfixes(ps[..k]))
            && (r.Ok? ==>
                  r.value.buffer == Texts(ps[k..])
                  && r.value.changes == st.changes.Extend(Patch, EntriesOf(ps[..k]))
                  && (k == |ps| ==> r.value.logLines == [] && r.value.version == st.version && r.value.name == st.name)
                  && (k < |ps| ==>
                        r.value.version == Some(ps[k].kind.version)
                        && r.value.name == (if ps[k].kind.name.Some? then ps[k].kind.name else st.name)
                        && r.value.logLines == Texts(ps[k..k2])))
  {
    var pre := Scan(ps[..k], st);
    assert (pre.Err? <==> EntryBeforeBugfixes(ps[..k]))
           && (pre.Ok? ==> pre.value.changes == st.changes.Extend(Patch, EntriesOf(ps[..k]))) by {
      assert forall i :: 0 <= i < |ps[..k]| ==> ps[..k][i] == ps[i];
      ScanPending(ps[..k], st);
    }
    ScanFromStart(ps, st, k, k2);
  }

  /**
   * parse reads its text as promised: with k the first release heading and
   * k2 the next one, parse raises exactly when an entry line comes before any
   * "=== Bugfixes" line ahead of the first heading; otherwise every such
   * pending entry is appended to the patch bucket, the buffer holds every line
   * from the first heading on, the version is that heading's and the name the
   * one it carries (the old name when it carries none), and the release log
   * is the lines from that heading up to the next. Without any heading the
   * version, the name and the release log stay empty or as they were.
   */
  lemma ParseReadsFirstRelease(d: Document, k: nat, k2: nat)
    requires FirstHeadingAt(Lines(d.content), 0, k)
    requires k < |Lines(d.content)| ==> FirstHeadingAt(Lines(d.content), k + 1, k2)
    ensures var lines := Lines(d.content);
            var pending := ClassifyAll(lines[..k]);
            var o := ParseOutcome(d);
            (o.error.Some? <==> EntryBeforeBugfixes(pending))
            && (o.error.None? ==>
                  o.doc.parsed && o.doc.buffer == lines[k..]
                  && o.doc.changes == d.changes.Extend(Patch, EntriesOf(pending))
                  && (k == |lines| ==> o.doc.version == d.version && o.doc.name == d.name && o.doc.releaseLog == [])
                  && (k < |lines| ==>
                        var h := ReleaseHeading(lines[k]).value;
                        o.doc.version == Some(h.version)
                        && o.doc.name == (if NameOf(h.rest).Some? then NameOf(h.rest) else d.name)
                        && o.doc.releaseLog == Concat(lines[k..k2])))
  {
    var lines := Lines(d.content);
    var ps := ClassifyAll(lines);
    var st := Start(d.changes, d.version, d.name);
    ClassifiedHeadings(lines, 0, k);
    FindHeadingIs(ps, k);
    if k < |lines| {
      ClassifiedHeadings(lines, k + 1, k2);
      FindHeadingAfter(ps, k, k2);
      ClassifySlice(lines, k, k2);
      TextsOfClassified(lines[k..k2]);
    }
    ScanReadsFirstRelease(ps, st, k, k2);
    ClassifySlice(lines, 0, k);
    ClassifySuffix(lines, k);
    TextsOfClassified(lines[k..]);
    assert Texts(ps[k..]) == lines[k..];
    assert ParseOutcome(d) == ParseResult(d, Scan(ps, st));
  }

  lemma FindHeadingAfter(ps: seq<ParsedLine>, k: nat, k2: nat)
    requires k < k2 <= |ps| && forall i :: k + 1 <= i < k2 ==> !ps[i].kind.ReleaseLine?
    requires k2 < |ps| ==> ps[k2].kind.ReleaseLine?
    ensures FindHeading(ps[k + 1..]) == k2 - (k + 1)
  {
    var rest := ps[k + 1..];
    assert forall i :: 0 <= i < |rest| ==> rest[i] == ps[k + 1 + i];
    FindHeadingIs(rest, k2 - (k + 1));
  }

  /** The first release heading at or after `from`. */
  function NextHeading(lines: seq<string>, from: nat): (k: nat)
    requires from <= |lines|
    ensures FirstHeadingAt(lines, from, k)
    decreases |lines| - from
  {
    if from == |lines| || ReleaseHeading(lines[from]).Some? then from else NextHeading(lines, from + 1)
  }

  // ---------------------------------------------------------------------------
  // The invariant of a parsed history file.

  /**
   * What a successful parse of a fresh file establishes and update_history
   * keeps: the version is well formed, the buffer holds whole lines, it is
   * empty exactly when no version was read, and otherwise starts with the
   * heading of the current version.
   */
  predicate Valid(d: Document) {
    ValidVersion(d.version) && PhysicalLines(d.buffer)
    && (d.buffer == [] ==> d.version.None?)
    && (d.buffer != [] ==> ReleaseHeading(d.buffer[0]).Some?
                           && d.version == Some(ReleaseHeading(d.buffer[0]).value.version))
  }

  /** Parsing a newly extended IO, when it does not raise, establishes the invariant. */
  lemma FreshParseValid(content: string)
    ensures ParseOutcome(Fresh(content)).error.None? ==> Valid(ParseOutcome(Fresh(content)).doc)
  {
    var lines := Lines(content);
    var k := NextHeading(lines, 0);
    var k2 := if k < |lines| then NextHeading(lines, k + 1) else k;
    ParseReadsFirstRelease(Fresh(content), k, k2);
  }

  /**
   * current_version of a file without any release heading is "0.0.0", and
   * next_version bumps it to "0.0.1" when nothing is pending.
   */
  lemma NoReleaseYet(content: string)
    requires forall i :: 0 <= i < |Lines(content)| ==> ReleaseHeading(Lines(content)[i]).None?
    ensures var o := ParseOutcome(Fresh(content));
            o.error.None? ==>
              CurrentVersionString(o.doc.version) == "0.0.0" && o.doc.buffer == [] && o.doc.releaseLog == []
              && (o.doc.changes.major == [] && o.doc.changes.minor == [] ==>
                    ValueOf(NextVersionText(o.doc.version, o.doc.changes)) == Version(0, 0, 1))
  {
    var lines := Lines(content);
    ParseReadsFirstRelease(Fresh(content), |lines|, |lines|);
  }

  /** An empty history: version "0.0.0", next version "0.0.1". */
  lemma EmptyHistory()
    ensures var o := ParseOutcome(Fresh(""));
            o.error.None? && CurrentVersionString(o.doc.version) == "0.0.0"
            && VersionString(NextVersionText(o.doc.version, o.doc.changes)) == "0.0.1"
  {
    var o := ParseOutcome(Fresh(""));
    NoReleaseYet("");
    assert Lines("") == [];
    assert o.doc.changes == NoChanges;
    assert FormatNat(0) == "0" && FormatNat(1) == "1";
  }

  // ---------------------------------------------------------------------------
  // update_history without a release.

  lemma {:induction false} EntriesForSnoc(es: seq<(Bucket, string)>, x: (Bucket, string), b: Bucket)
    ensures EntriesFor(es + [x], b) == EntriesFor(es, b) + (if x.0 == b then [x.1] else [])
    decreases |es|
  {
    if es == [] {
      assert EntriesFor([x], b) == (if x.0 == b then [x.1] else []) + EntriesFor([], b);
    } else {
      assert (es + [x])[0] == es[0] && (es + [x])[1..] == es[1..] + [x];
      EntriesForSnoc(es[1..], x, b);
    }
  }

  /** Appending the pairs in turn extends each bucket by exactly its own messages, in order. */
  lemma {:induction false} AppendEntriesGet(c: Changes, es: seq<(Bucket, string)>, b: Bucket)
    ensures AppendEntries(c, es).Get(b) == c.Get(b) + EntriesFor(es, b)
    decreases |es|
  {
    if es != [] {
      var init := es[..|es| - 1];
      var last := es[|es| - 1];
      AppendEntriesGet(c, init, b);
      assert init + [last] == es;
      EntriesForSnoc(init, last, b);
    }
  }

  /**
   * update_history without a release: after the parse it may need, every
   * bucket is extended by its own messages in order and by nothing else; the
   * text becomes the pending changelog, two blank lines and the buffer; the
   * buffer, version and name are kept, and with them the invariant.
   */
  lemma UpdateAppends(d: Document, entries: seq<(Bucket, string)>, date: string)
    requires ValidVersion(d.version) && Prepare(d).error.None?
    ensures var p := Prepare(d).doc;
            var o := UpdateOutcome(d, entries, NoRelease, date);
            o.error.None?
            && (forall b :: o.doc.changes.Get(b) == p.changes.Get(b) + EntriesFor(entries, b))
            && o.doc.content == Render(PendingLog(o.doc, date), p.buffer)
            && o.doc.buffer == p.buffer && o.doc.version == p.version && o.doc.name == p.name
            && o.doc.release == NoRelease
            && (Valid(p) ==> Valid(o.doc))
  {
    var p := Prepare(d).doc;
    UpdatePrepared(d, entries, NoRelease, date);
    forall b {
      AppendEntriesGet(p.changes, entries, b);
    }
  }

  // ---------------------------------------------------------------------------
  // The text rewrite writes, read back.

  lemma DigitsSingleLine(s: string)
    requires AllDigits(s)
    ensures !HasNewline(s)
  {
  }

  /** A heading written by changelog is one line. */
  lemma HeadingSingleLine(release: Release, v: VersionText, date: string)
    requires IsVersionText(v)
    requires !release.NoRelease? ==> IsDate(date) && (release.Named? ==> !HasNewline(release.name))
    ensures !HasNewline(HeadingLine(release, v, date))
  {
    if !release.NoRelease? {
      DigitsSingleLine(v.major);
      DigitsSingleLine(v.minor);
      DigitsSingleLine(v.patch);
      NoNewlineAppend(v.major, ".");
      NoNewlineAppend(v.major + ".", v.minor);
      NoNewlineAppend(v.major + "." + v.minor, ".");
      NoNewlineAppend(v.major + "." + v.minor + ".", v.patch);
      NoNewlineAppend("== ", VersionString(v));
      TailSingleLine(release, date);
      NoNewlineAppend("== " + VersionString(v), ReleaseString(release) + (" - " + date));
    }
  }

  /** No line of a written section is a release heading. */
  lemma SectionLinesNotRelease(c: Changes, b: Bucket)
    requires ReadableEntries(c)
    ensures forall l :: l in SectionBlock(c, b) ==> ReleaseHeading(l).None?
  {
    SectionNotRelease(c, b);
    var sb := SectionBlock(c, b);
    forall l | l in sb
      ensures ReleaseHeading(l).None?
    {
      var j :| 0 <= j < |sb| && sb[j] == l;
      assert ClassifyAll(sb)[j].kind == KindOf(l);
    }
  }

  /** After its heading, no line of a written changelog is a release heading. */
  lemma BlockTailNotRelease(c: Changes, h: string)
    requires ReadableEntries(c)
    ensures var blk := ChangelogBlock(c, h);
            forall i :: 1 <= i < |blk| ==> ReleaseHeading(blk[i]).None?
  {
    SectionLinesNotRelease(c, Major);
    SectionLinesNotRelease(c, Minor);
    SectionLinesNotRelease(c, Patch);
    TailNotRelease(ChangelogBlock(c, h), h + "\n", SectionBlock(c, Major), SectionBlock(c, Minor), SectionBlock(c, Patch));
  }

  lemma TailNotRelease(blk: seq<string>, first: string, a: seq<string>, b: seq<string>, c: seq<string>)
    requires blk == [first] + a + b + c
    requires forall l :: l in a ==> ReleaseHeading(l).None?
    requires forall l :: l in b ==> ReleaseHeading(l).None?
    requires forall l :: l in c ==> ReleaseHeading(l).None?
    ensures forall i :: 1 <= i < |blk| ==> ReleaseHeading(blk[i]).None?
  {
    forall i | 1 <= i < |blk|
      ensures ReleaseHeading(blk[i]).None?
    {
      assert blk[i] == (a + b + c)[i - 1];
      assert blk[i] in a + b + c;
    }
  }

  /** The blank lines rewrite puts after the changelog (one more when the buffer is empty). */
  function Blanks(buffer: seq<string>): seq<string> {
    if buffer == [] then ["\n", "\n", "\n"] else ["\n", "\n"]
  }

  lemma BlanksWritten(buffer: seq<string>)
    ensures ["\n", "\n"] + WrittenBuffer(buffer) == Blanks(buffer) + Written(buffer)
    ensures forall i :: 0 <= i < |Blanks(buffer)| ==> Blanks(buffer)[i] == "\n"
  {
  }

  lemma AppendRegroup(a: seq<string>, x: seq<string>, y: seq<string>, z: seq<string>, w: seq<string>)
    requires x + y == z + w
    ensures a + x + y == a + z + w
  {
    assert a + x + y == a + (x + y);
    assert a + z + w == a + (z + w);
  }

  /**
   * What rewrite writes, read back: the changelog's lines, the blank lines,
   * then the buffer, whose first line (the current release heading) is the
   * first release heading after the changelog's own heading line.
   */
  lemma RenderedLines(c: Changes, release: Release, next: VersionText, date: string, buffer: seq<string>,
                      lines: seq<string>, n: nat)
    requires HasChanges(c) && ReadableEntries(c) && PhysicalLines(buffer)
    requires !HasNewline(HeadingLine(release, next, date))
    requires buffer != [] ==> ReleaseHeading(buffer[0]).Some?
    requires lines == Lines(Render(ChangelogText(c, release, next, date), buffer))
    requires n == |ChangelogBlock(c, HeadingLine(release, next, date))| + |Blanks(buffer)|
    ensures lines == ChangelogBlock(c, HeadingLine(release, next, date)) + Blanks(buffer) + Written(buffer)
    ensures 0 < n <= |lines| && lines[0] == HeadingLine(release, next, date) + "\n"
    ensures FirstHeadingAt(lines, 1, n)
    ensures buffer == [] <==> n == |lines|
    ensures lines[n..] == Written(buffer)
    ensures buffer != [] ==> ReleaseHeading(lines[n]).Some?
                             && ReleaseHeading(lines[n]).value.version == ReleaseHeading(buffer[0]).value.version
  {
    var h := HeadingLine(release, next, date);
    var blk := ChangelogBlock(c, h);
    WrittenLines(c, release, next, date, buffer);
    BlockTailNotRelease(c, h);
    NotReleaseHeading("\n");
    BlanksWritten(buffer);
    AppendRegroup(blk, ["\n", "\n"], WrittenBuffer(buffer), Blanks(buffer), Written(buffer));
    if buffer != [] {
      HeadingWritten(buffer[0]);
    }
    JoinedHeadings(blk, Blanks(buffer), Written(buffer));
  }

  /** A block whose heading is its only release line, then blank lines, then a written buffer. */
  lemma JoinedHeadings(blk: seq<string>, blanks: seq<string>, rest: seq<string>)
    requires blk != [] && forall i :: 1 <= i < |blk| ==> ReleaseHeading(blk[i]).None?
    requires forall i :: 0 <= i < |blanks| ==> blanks[i] == "\n"
    requires rest != [] ==> ReleaseHeading(rest[0]).Some?
    ensures FirstHeadingAt(blk + blanks + rest, 1, |blk| + |blanks|)
  {
    var lines := blk + blanks + rest;
    NotReleaseHeading("\n");
    forall i | 1 <= i < |blk| + |blanks|
      ensures ReleaseHeading(lines[i]).None?
    {
      if i < |blk| {
        assert lines[i] == blk[i];
      } else {
        assert lines[i] == blanks[i - |blk|];
      }
    }
    if rest != [] {
      assert lines[|blk| + |blanks|] == rest[0];
    }
  }

  /** The release log a release leaves: the changelog, its line feed, the blank lines. */
  lemma ReleaseLogText(c: Changes, release: Release, next: VersionText, date: string, buffer: seq<string>)
    requires HasChanges(c) && SingleLineEntries(c)
    requires !HasNewline(HeadingLine(release, next, date))
    ensures Concat(ChangelogBlock(c, HeadingLine(release, next, date)) + Blanks(buffer))
            == ChangelogText(c, release, next, date) + BlankText(buffer)
  {
    var log := ChangelogText(c, release, next, date);
    var blk := ChangelogBlock(c, HeadingLine(release, next, date));
    ChangelogReadsBack(c, release, next, date);
    LinesConcat(log + "\n");
    assert Concat(blk) == log + "\n";
    ConcatAppend(blk, Blanks(buffer));
    BlanksText(buffer);
    AppendAssoc(log, "\n", Concat(Blanks(buffer)));
  }

  /** The text of the blank lines: "\n\n", and one more line feed for an empty buffer. */
  function BlankText(buffer: seq<string>): string {
    if buffer == [] then "\n\n\n\n" else "\n\n\n"
  }

  lemma BlanksText(buffer: seq<string>)
    ensures "\n" + Concat(Blanks(buffer)) == BlankText(buffer)
  {
    if buffer == [] {
      assert Concat(["\n", "\n", "\n"]) == "\n" + ("\n" + ("\n" + Concat([])));
    } else {
      assert Concat(["\n", "\n"]) == "\n" + ("\n" + Concat([]));
    }
  }

  lemma AppendAssoc(a: string, b: string, c: string)
    ensures a + b + c == a + (b + c)
  {
  }

  // ---------------------------------------------------------------------------
  // update_history with a release.

  /**
   * update_history with a release, on a parsed file with entries to release:
   * rewrite puts the changelog under a "== <next version>" heading on top of
   * the file, and the parse that follows makes that heading the current
   * release: the version becomes the next version, the release log becomes
   * the written changelog and its blank lines, the name is the given one
   * (or the old one for an unnamed release), and nothing is pending.
   */
  lemma ReleaseUpdate(d: Document, entries: seq<(Bucket, string)>, release: Release, date: string)
    requires Valid(d) && d.parsed
    requires !release.NoRelease? && IsDate(date) && (release.Named? ==> !HasNewline(release.name))
    requires HasChanges(AppendEntries(d.changes, entries)) && ReadableEntries(AppendEntries(d.changes, entries))
    ensures var c := AppendEntries(d.changes, entries);
            var next := NextVersionText(d.version, c);
            var o := UpdateOutcome(d, entries, release, date);
            o.error.None?
            && o.doc.content == Render(ChangelogText(c, release, next, date), d.buffer)
            && o.doc.buffer == Lines(o.doc.content)
            && o.doc.version == Some(next)
            && o.doc.name == (if release.Named? then Some(release.name) else d.name)
            && o.doc.releaseLog == ChangelogText(c, release, next, date) + BlankText(d.buffer)
            && o.doc.changes == NoChanges && o.doc.release == NoRelease && o.doc.parsed
            && Valid(o.doc)
  {
    var c := AppendEntries(d.changes, entries);
    var next := NextVersionText(d.version, c);
    var q := d.(release := release, changes := c);
    var log := PendingLog(q, date);
    var named := q.(content := Render(log, d.buffer), releaseLog := log,
                    name := if release.Named? then Some(release.name) else d.name);
    UpdatePrepared(d, entries, release, date);
    RewriteReleased(q, date, named);
    ParseReleased(named, c, release, next, date, d.buffer);
  }

  /**
   * After update_history with a release, the release log ends with the three
   * line feeds of the blank lines rewrite wrote, so it is never a text with
   * its trailing whitespace stripped.
   */
  lemma ReleaseLogTrailingBlanks(d: Document, entries: seq<(Bucket, string)>, release: Release, date: string)
    requires Valid(d) && d.parsed
    requires !release.NoRelease? && IsDate(date) && (release.Named? ==> !HasNewline(release.name))
    requires HasChanges(AppendEntries(d.changes, entries)) && ReadableEntries(AppendEntries(d.changes, entries))
    ensures var log := UpdateOutcome(d, entries, release, date).doc.releaseLog;
            |log| >= 3 && log[|log| - 3..] == "\n\n\n"
  {
    ReleaseUpdate(d, entries, release, date);
    var c := AppendEntries(d.changes, entries);
    BlankTextEnds(ChangelogText(c, release, NextVersionText(d.version, c), date), d.buffer,
                  UpdateOutcome(d, entries, release, date).doc.releaseLog);
  }

  /** A text followed by the blank lines ends with three line feeds. */
  lemma BlankTextEnds(t: string, buffer: seq<string>, log: string)
    requires log == t + BlankText(buffer)
    ensures |log| >= 3 && log[|log| - 3..] == "\n\n\n"
  {
  }

  /**
   * The queries after update_history with a release: changes? is false and
   * changelog is "", current_version is the version just written, a named
   * release is the current release name, and next_version bumps the patch
   * number of the version just written.
   */
  lemma AfterRelease(d: Document, entries: seq<(Bucket, string)>, release: Release, date: string,
                      next: VersionText, o: Document, later: string)
    requires Valid(d) && d.parsed
    requires !release.NoRelease? && IsDate(date) && (release.Named? ==> !HasNewline(release.name))
    requires HasChanges(AppendEntries(d.changes, entries)) && ReadableEntries(AppendEntries(d.changes, entries))
    requires next == NextVersionText(d.version, AppendEntries(d.changes, entries))
    requires o == UpdateOutcome(d, entries, release, date).doc
    ensures ValidVersion(o.version) && o.parsed
    ensures !HasChanges(o.changes) && PendingLog(o, later) == ""
    ensures CurrentVersionString(o.version) == VersionString(next)
    ensures release.Named? ==> o.name == Some(release.name)
    ensures ValueOf(NextVersionText(o.version, o.changes))
            == Version(ValueOf(next).major, ValueOf(next).minor, ValueOf(next).patch + 1)
  {
    assert o.version == Some(next) && o.changes == NoChanges && o.parsed
           && (release.Named? ==> o.name == Some(release.name)) by {
      ReleaseUpdate(d, entries, release, date);
    }
    NothingPending(next, o.release, later);
  }

  /** With nothing pending after a release, the next version only bumps the patch number. */
  lemma NothingPending(v: VersionText, release: Release, date: string)
    requires IsVersionText(v)
    ensures ChangelogText(NoChanges, release, NextVersionText(Some(v), NoChanges), date) == ""
    ensures ValueOf(NextVersionText(Some(v), NoChanges)) == Version(ValueOf(v).major, ValueOf(v).minor, ValueOf(v).patch + 1)
  {
  }

  /** The parse after a release's rewrite finds the new heading on the first line. */
  lemma ParseReleased(e: Document, c: Changes, release: Release, next: VersionText, date: string, buffer: seq<string>)
    requires e.content == Render(ChangelogText(c, release, next, date), buffer)
    requires HasChanges(c) && ReadableEntries(c) && PhysicalLines(buffer)
    requires buffer != [] ==> ReleaseHeading(buffer[0]).Some?
    requires IsVersionText(next) && !release.NoRelease? && IsDate(date)
    requires release.Named? ==> !HasNewline(release.name)
    ensures var o := ParseOutcome(e);
            o.error.None?
            && o.doc.buffer == Lines(e.content)
            && o.doc.version == Some(next)
            && o.doc.name == (if release.Named? then Some(release.name) else e.name)
            && o.doc.releaseLog == ChangelogText(c, release, next, date) + BlankText(buffer)
            && o.doc.parsed && Valid(o.doc)
  {
    var n := RenderedHeaded(c, release, next, date, buffer);
    ParseHeadedLines(e, n, next, if release.Named? then Some(release.name) else None);
  }

  /**
   * The lines of a released changelog: its heading reads back as the new
   * release, and the lines up to the next heading join into the changelog
   * and its blank lines.
   */
  lemma RenderedHeaded(c: Changes, release: Release, next: VersionText, date: string, buffer: seq<string>)
    returns (n: nat)
    requires HasChanges(c) && ReadableEntries(c) && PhysicalLines(buffer)
    requires buffer != [] ==> ReleaseHeading(buffer[0]).Some?
    requires IsVersionText(next) && !release.NoRelease? && IsDate(date)
    requires release.Named? ==> !HasNewline(release.name)
    ensures var lines := Lines(Render(ChangelogText(c, release, next, date), buffer));
            lines != []
            && KindOf(lines[0]) == ReleaseLine(next, if release.Named? then Some(release.name) else None)
            && FirstHeadingAt(lines, 1, n)
            && Concat(lines[..n]) == ChangelogText(c, release, next, date) + BlankText(buffer)
  {
    var h := HeadingLine(release, next, date);
    HeadingSingleLine(release, next, date);
    n := |ChangelogBlock(c, h)| + |Blanks(buffer)|;
    RenderedLines(c, release, next, date, buffer, Lines(Render(ChangelogText(c, release, next, date), buffer)), n);
    KindOfReleaseHeading(next, release, date);
    PrefixOfJoin(Lines(Render(ChangelogText(c, release, next, date), buffer)), ChangelogBlock(c, h) + Blanks(buffer), Written(buffer));
    ReleaseLogText(c, release, next, date, buffer);
  }

  /**
   * A fresh parse of lines that start with a release heading: it keeps every
   * line, takes the version and name from that heading and logs the lines
   * up to the next heading.
   */
  lemma ParseHeadedLines(e: Document, n: nat, v: VersionText, nm: Option<string>)
    requires var lines := Lines(e.content);
             lines != [] && KindOf(lines[0]) == ReleaseLine(v, nm) && FirstHeadingAt(lines, 1, n)
    ensures var o := ParseOutcome(e);
            o.error.None?
            && o.doc.buffer == Lines(e.content)
            && o.doc.version == Some(v)
            && o.doc.name == (if nm.Some? then nm else e.name)
            && o.doc.releaseLog == Concat(Lines(e.content)[..n])
            && o.doc.parsed && Valid(o.doc)
  {
    var lines := Lines(e.content);
    assert FirstHeadingAt(lines, 0, 0);
    assert lines[..0] == [];
    ParseReadsFirstRelease(e, 0, n);
    assert lines[0..] == lines && lines[0..n] == lines[..n];
  }

  lemma PrefixOfJoin<T>(s: seq<T>, a: seq<T>, b: seq<T>)
    requires s == a + b
    ensures s[..|a|] == a
  {
  }

  // ---------------------------------------------------------------------------
  // A rewrite without a release, read back.

  /** The blank lines rewrite puts are ordinary lines. */
  lemma BlankKinds(buffer: seq<string>)
    ensures var ps := ClassifyAll(Blanks(buffer));
            forall i :: 0 <= i < |ps| ==> ps[i].kind == OtherLine
  {
    KindOfBlank();
  }

  /**
   * The lines rewrite puts before the first release heading when nothing is
   * released: only patch entries come back, into the patch bucket; a major
   * or minor entry makes the next parse raise.
   */
  lemma PendingScan(c: Changes, buffer: seq<string>)
    requires HasChanges(c) && ReadableEntries(c)
    requires var pre := ChangelogBlock(c, "== In Git") + Blanks(buffer);
             forall i :: 0 <= i < |pre| ==> ReleaseHeading(pre[i]).None?
    ensures var pend := ClassifyAll(ChangelogBlock(c, "== In Git") + Blanks(buffer));
            (c.major == [] && c.minor == [] ==>
               !EntryBeforeBugfixes(pend) && NoChanges.Extend(Patch, EntriesOf(pend)) == c)
            && (c.major != [] || c.minor != [] ==> EntryBeforeBugfixes(pend))
  {
    var blk := ClassifyAll(ChangelogBlock(c, "== In Git"));
    var blanks := ClassifyAll(Blanks(buffer));
    var st := Start(NoChanges, None, None);
    ClassifyAllAppend(ChangelogBlock(c, "== In Git"), Blanks(buffer));
    ScanAppend(blk, blanks, st);
    ScanPendingBlock(c, st);
    ScanPending(blk + blanks, st);
    if c.major == [] && c.minor == [] {
      BlankKinds(buffer);
      ScanOthers(blanks, st.(significance := Some(Patch), changes := NoChanges.Extend(Patch, c.patch)));
      PatchOnly(c);
    }
  }

  /** Changes with only bugfixes are what filing those bugfixes from scratch gives. */
  lemma PatchOnly(c: Changes)
    requires c.major == [] && c.minor == []
    ensures NoChanges.Extend(Patch, c.patch) == c
  {
    var r := NoChanges.Extend(Patch, c.patch);
    assert r.major == r.Get(Major) == [];
    assert r.minor == r.Get(Minor) == [];
    assert r.patch == r.Get(Patch) == c.patch;
  }

  /**
   * A newly extended IO whose lines are some lines without a release heading
   * followed by lines that start at one: the parse reads the first part as
   * pending entries and buffers the rest.
   */
  lemma ParseAfterPending(content: string, pre: seq<string>, rest: seq<string>)
    requires Lines(content) == pre + rest
    requires forall i :: 0 <= i < |pre| ==> ReleaseHeading(pre[i]).None?
    requires rest != [] ==> ReleaseHeading(rest[0]).Some?
    ensures var pend := ClassifyAll(pre);
            var o := ParseOutcome(Fresh(content));
            (o.error.Some? <==> EntryBeforeBugfixes(pend))
            && (o.error.None? ==>
                  o.doc.changes == NoChanges.Extend(Patch, EntriesOf(pend))
                  && o.doc.buffer == rest
                  && o.doc.version == if rest == [] then None else Some(ReleaseHeading(rest[0]).value.version))
  {
    var lines := Lines(content);
    var n := |pre|;
    assert FirstHeadingAt(lines, 0, n) by {
      assert forall i :: 0 <= i < n ==> lines[i] == pre[i];
      if rest != [] {
        assert lines[n] == rest[0];
      }
    }
    var k2 := if n < |lines| then NextHeading(lines, n + 1) else n;
    ParseReadsFirstRelease(Fresh(content), n, k2);
    assert lines[..n] == pre && lines[n..] == rest;
  }

  lemma InGitSingleLine()
    ensures !HasNewline("== In Git")
  {
    var s := "== In Git";
    assert s == ['=', '=', ' ', 'I', 'n', ' ', 'G', 'i', 't'];
  }

  /**
   * The lines of a changelog written without a release: the pending block,
   * the blank lines, and the release lines of the buffer, where the first
   * release heading is.
   */
  lemma PendingLines(c: Changes, next: VersionText, date: string, buffer: seq<string>)
    requires HasChanges(c) && ReadableEntries(c) && PhysicalLines(buffer)
    requires buffer != [] ==> ReleaseHeading(buffer[0]).Some?
    ensures var pre := ChangelogBlock(c, "== In Git") + Blanks(buffer);
            var rest := Written(buffer);
            Lines(Render(ChangelogText(c, NoRelease, next, date), buffer)) == pre + rest
            && (forall i :: 0 <= i < |pre| ==> ReleaseHeading(pre[i]).None?)
            && (rest != [] <==> buffer != [])
            && (rest != [] ==> ReleaseHeading(rest[0]).Some?
                               && ReleaseHeading(rest[0]).value.version == ReleaseHeading(buffer[0]).value.version)
  {
    var pre := ChangelogBlock(c, "== In Git") + Blanks(buffer);
    var lines := Lines(Render(ChangelogText(c, NoRelease, next, date), buffer));
    assert HeadingLine(NoRelease, next, date) == "== In Git";
    InGitSingleLine();
    RenderedLines(c, NoRelease, next, date, buffer, lines, |pre|);
    KindOfInGit();
    HeadingsAfter(lines, pre, Written(buffer));
  }

  /** Lines whose first heading is where `rest` starts, told apart from the lines before it. */
  lemma HeadingsAfter(lines: seq<string>, pre: seq<string>, rest: seq<string>)
    requires lines == pre + rest && pre != []
    requires ReleaseHeading(lines[0]).None? && FirstHeadingAt(lines, 1, |pre|)
    ensures forall i :: 0 <= i < |pre| ==> ReleaseHeading(pre[i]).None?
    ensures rest != [] ==> ReleaseHeading(rest[0]).Some? && rest[0] == lines[|pre|]
  {
    forall i | 0 <= i < |pre|
      ensures ReleaseHeading(pre[i]).None?
    {
      assert pre[i] == lines[i];
    }
  }

  /**
   * What a later run reads from a file rewritten without a release: with only
   * patch entries pending it recovers exactly those entries, the current
   * version and the release lines below them; a pending major or minor entry
   * makes that parse raise, since its section has no "=== Bugfixes" heading
   * above it.
   */
  lemma PendingRoundTrip(d: Document, date: string)
    requires Valid(d) && d.release.NoRelease?
    requires HasChanges(d.changes) && ReadableEntries(d.changes)
    ensures var w := RewriteOutcome(d, date).doc;
            var o := ParseOutcome(Fresh(w.content));
            (d.changes.major == [] && d.changes.minor == [] ==>
               o.error.None? && o.doc.changes == d.changes && o.doc.version == d.version
               && o.doc.buffer == Written(d.buffer))
            && (d.changes.major != [] || d.changes.minor != [] ==> o.error.Some?)
  {
    var c := d.changes;
    var next := NextVersionText(d.version, c);
    var content := Render(ChangelogText(c, NoRelease, next, date), d.buffer);
    var pre := ChangelogBlock(c, "== In Git") + Blanks(d.buffer);
    assert RewriteOutcome(d, date).doc.content == content;
    PendingLines(c, next, date, d.buffer);
    ParseAfterPending(content, pre, Written(d.buffer));
    PendingScan(c, d.buffer);
  }
}
