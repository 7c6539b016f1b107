// Historian::HistoryFile as the state it keeps on the IO it extends: parse,
// rewrite, update_history and the queries, first as functions from one
// state to the next, then as a class whose methods update the fields in
// place and are proved to agree with those functions.

module HistoryIO {
  import opened Wrappers
  import opened Text
  import opened HistoryModel
  import opened HistoryLines
  import opened HistoryScan
  import opened HistoryChangelog

  /**
   * Everything the extended IO holds: its text, `@changes`, `@buffer`,
   * `@release_log`, `@current_version`, `@current_release_name`, `@release`
   * and `@parsed`.
   */
  datatype Document = Document(content: string, changes: Changes, buffer: seq<string>, releaseLog: string,
                               version: Option<VersionText>, name: Option<string>,
                               release: Release, parsed: bool)

  /** An IO just extended: nothing read yet. */
  function Fresh(content: string): Document {
    Document(content, NoChanges, [], "", None, None, NoRelease, false)
  }

  /** The state after an operation, with the exception it raised, if any. */
  datatype Outcome = Outcome(doc: Document, error: Option<ParseError>)

  /** The lines each_line yields from the text, with what parse recognises in each. */
  function Classified(content: string): seq<ParsedLine> {
    ClassifyAll(Lines(content))
  }

  /**
   * parse: rewind, empty the buffer and the release log, scan every line and
   * join the release log. When an entry line raises, the buffer is left empty
   * and the release log unjoined; changes, version and name are untouched then.
   */
  function ParseOutcome(d: Document): (o: Outcome)
    ensures o.doc.content == d.content && o.doc.release == d.release
    ensures ValidVersion(d.version) ==> ValidVersion(o.doc.version)
  {
    var ps := Classified(d.content);
    var st := Start(d.changes, d.version, d.name);
    var k := FindHeading(ps);
    ScanFromStart(ps, st, k, if k < |ps| then k + 1 + FindHeading(ps[k + 1..]) else k);
    ParseResult(d, Scan(ps, st))
  }

  /** The state parse leaves, from the result of its scan. */
  function ParseResult(d: Document, r: Result<ScanState, ParseError>): Outcome {
    match r
    case Ok(st) =>
      Outcome(d.(changes := st.changes, buffer := st.buffer, releaseLog := Concat(st.logLines),
                 version := st.version, name := st.name, parsed := true), None)
    case Err(e) =>
      Outcome(d.(buffer := [], releaseLog := ""), Some(e))
  }

  /** One line of the scan, when it is read without error. */
  lemma ScanStepOk(ps: seq<ParsedLine>, i: nat, st: ScanState, next: ScanState)
    requires i < |ps| && Step(st, ps[i]) == Ok(next)
    ensures Scan(ps[i..], st) == Scan(ps[i + 1..], next)
  {
    assert ps[i..][0] == ps[i] && ps[i..][1..] == ps[i + 1..];
  }

  /** A step that leaves the scan gathering with no section came from such a state and changed nothing. */
  lemma StepFresh(st: ScanState, p: ParsedLine)
    requires Step(st, p).Ok?
    ensures var next := Step(st, p).value;
            next.phase == GatheringCurrentHistory && next.significance.None? ==>
              st.phase == GatheringCurrentHistory && st.significance.None? && next == st
  {
  }

  /** One line of the scan, when it raises. */
  lemma ScanStepErr(ps: seq<ParsedLine>, i: nat, st: ScanState, e: ParseError)
    requires i < |ps| && Step(st, ps[i]) == Err(e)
    ensures Scan(ps[i..], st) == Err(e)
  {
    assert ps[i..][0] == ps[i];
  }

  /** `parse unless parsed?` */
  function Prepare(d: Document): (o: Outcome)
    ensures d.parsed ==> o == Outcome(d, None)
    ensures ValidVersion(d.version) ==> ValidVersion(o.doc.version)
  {
    if d.parsed then Outcome(d, None) else ParseOutcome(d)
  }

  /** `changes[significance] << message` for each pair, in order. */
  function AppendEntries(c: Changes, entries: seq<(Bucket, string)>): Changes
    decreases |entries|
  {
    if entries == [] then c
    else
      var last := entries[|entries| - 1];
      AppendEntries(c, entries[..|entries| - 1]).Append(last.0, last.1)
  }

  /** The messages of the pairs for one bucket, in order. */
  function EntriesFor(entries: seq<(Bucket, string)>, b: Bucket): seq<string> {
    if entries == [] then []
    else (if entries[0].0 == b then [entries[0].1] else []) + EntriesFor(entries[1..], b)
  }

  /** The changelog rewrite writes for the state's pending changes and release. */
  function PendingLog(d: Document, date: string): string
    requires ValidVersion(d.version)
  {
    ChangelogText(d.changes, d.release, NextVersionText(d.version, d.changes), date)
  }

  /**
   * rewrite: write the changelog, two blank lines and the buffer in place of
   * the text; for a release, also take the release's name and re-parse the
   * text just written, then forget the release and the changes.
   */
  function RewriteOutcome(d: Document, date: string): (o: Outcome)
    requires ValidVersion(d.version)
    ensures ValidVersion(o.doc.version)
  {
    var log := PendingLog(d, date);
    var written := d.(content := Render(log, d.buffer));
    if d.release.NoRelease? then Outcome(written, None)
    else
      var named := written.(releaseLog := log, name := if d.release.Named? then Some(d.release.name) else d.name);
      var o := ParseOutcome(named);
      if o.error.Some? then o
      else Outcome(o.doc.(release := NoRelease, changes := NoChanges), None)
  }

  /** RewriteOutcome for a pending release, from the state before its parse. */
  lemma RewriteReleased(d: Document, date: string, named: Document)
    requires ValidVersion(d.version) && !d.release.NoRelease?
    requires named == d.(content := Render(PendingLog(d, date), d.buffer), releaseLog := PendingLog(d, date),
                         name := if d.release.Named? then Some(d.release.name) else d.name)
    ensures var o := ParseOutcome(named);
            RewriteOutcome(d, date)
            == if o.error.Some? then o else Outcome(o.doc.(release := NoRelease, changes := NoChanges), None)
  {
  }

  /**
   * A release's rewrite always leaves the written text in place of the old
   * one. When the re-parse of that text raises, the release stays recorded
   * and the changes are kept, with the buffer and the release log emptied;
   * when it succeeds, the release and the changes are forgotten and the
   * state is parsed.
   */
  lemma RewriteReparse(d: Document, date: string)
    requires ValidVersion(d.version) && !d.release.NoRelease?
    ensures var o := RewriteOutcome(d, date);
            o.doc.content == Render(PendingLog(d, date), d.buffer)
            && (o.error.Some? ==> o.doc.release == d.release && o.doc.changes == d.changes
                                  && o.doc.buffer == [] && o.doc.releaseLog == "")
            && (o.error.None? ==> o.doc.release == NoRelease && o.doc.changes == NoChanges && o.doc.parsed)
  {
  }

  /**
   * update_history: parse unless parsed, record the release, append the
   * messages to their buckets, rewrite.
   */
  function UpdateOutcome(d: Document, entries: seq<(Bucket, string)>, release: Release, date: string): (o: Outcome)
    requires ValidVersion(d.version)
    ensures ValidVersion(o.doc.version)
  {
    var p := Prepare(d);
    if p.error.Some? then p
    else RewriteOutcome(p.doc.(release := release, changes := AppendEntries(p.doc.changes, entries)), date)
  }

  /** UpdateOutcome once the parse before it succeeded. */
  lemma UpdatePrepared(d: Document, entries: seq<(Bucket, string)>, release: Release, date: string)
    requires ValidVersion(d.version) && Prepare(d).error.None?
    ensures var p := Prepare(d).doc;
            ValidVersion(p.version)
            && UpdateOutcome(d, entries, release, date)
               == RewriteOutcome(p.(release := release, changes := AppendEntries(p.changes, entries)), date)
  {
  }

  /** A query's answer after `parse unless parsed?`: the exception, or the value. */
  function Answer<T>(error: Option<ParseError>, value: T): Result<T, ParseError> {
    if error.Some? then Err(error.value) else Ok(value)
  }

  /** The IO extended with Historian::HistoryFile. */
  class HistoryFile {
    var content: string
    var changes: Changes
    var buffer: seq<string>
    var releaseLog: string
    var version: Option<VersionText>
    var name: Option<string>
    var release: Release
    var parsed: bool

    function State(): Document
      reads this
    {
      Document(content, changes, buffer, releaseLog, version, name, release, parsed)
    }

    constructor (text: string)
      ensures State() == Fresh(text)
    {
      content := text;
      changes := NoChanges;
      buffer := [];
      releaseLog := "";
      version := None;
      name := None;
      release := NoRelease;
      parsed := false;
    }

    /**
     * One pass of parse's each_line block: `phase`, `significance` and the
     * release log being gathered are parse's locals; changes, buffer, version
     * and name are updated in place. On an error nothing has changed.
     */
    method ParseLine(p: ParsedLine, phase: Phase, significance: Option<Bucket>, log: seq<string>)
      returns (r: Result<(Phase, Option<Bucket>, seq<string>), ParseError>)
      modifies this
      ensures content == old(content) && release == old(release) && parsed == old(parsed)
      ensures releaseLog == old(releaseLog)
      ensures var step := Step(ScanState(phase, significance, old(changes), old(buffer), log, old(version), old(name)), p);
              match step
              case Err(e) => r == Err(e) && changes == old(changes) && buffer == old(buffer)
                             && version == old(version) && name == old(name)
              case Ok(next) => r == Ok((next.phase, next.significance, next.logLines))
                               && ScanState(next.phase, next.significance, changes, buffer, next.logLines, version, name) == next
    {
      match phase {
        case GatheringCurrentHistory =>
          match p.kind {
            case ReleaseLine(v, n) =>
              buffer := buffer + [p.text];
              version := Some(v);
              if n.Some? {
                name := n;
              }
              return Ok((GatheringPreviousReleaseLog, significance, log + [p.text]));
            case BugfixesLine =>
              return Ok((phase, Some(Patch), log));
            case EntryLine(e) =>
              if significance.None? {
                return Err(EntryWithoutSection(e));
              }
              changes := changes.Append(significance.value, e);
              return Ok((phase, significance, log));
            case OtherLine =>
              return Ok((phase, significance, log));
          }
        case GatheringPreviousReleaseLog =>
          buffer := buffer + [p.text];
          if p.kind.ReleaseLine? {
            return Ok((GatheringRemainder, significance, log));
          }
          return Ok((phase, significance, log + [p.text]));
        case GatheringRemainder =>
          buffer := buffer + [p.text];
          return Ok((phase, significance, log));
      }
    }

    /** parse */
    method Parse() returns (err: Option<ParseError>)
      modifies this
      ensures Outcome(State(), err) == ParseOutcome(old(State()))
    {
      err := ReadLines(Classified(content));
    }

    /** parse's loop over the lines of the text, one line at a time, over the fields. */
    method ReadLines(ps: seq<ParsedLine>) returns (err: Option<ParseError>)
      modifies this
      ensures Outcome(State(), err) == ParseResult(old(State()), Scan(ps, Start(old(changes), old(version), old(name))))
    {
      ghost var start := Start(changes, version, name);
      buffer := [];
      releaseLog := "";
      var log: seq<string> := [];
      var phase := GatheringCurrentHistory;
      var significance: Option<Bucket> := None;
      var i := 0;
      while i < |ps|
        invariant 0 <= i <= |ps|
        invariant content == old(content) && release == old(release) && parsed == old(parsed)
        invariant releaseLog == ""
        invariant Scan(ps, start) == Scan(ps[i..], ScanState(phase, significance, changes, buffer, log, version, name))
        invariant phase == GatheringCurrentHistory && significance.None? ==>
                    changes == old(changes) && buffer == [] && log == []
                    && version == old(version) && name == old(name)
      {
        ghost var before := ScanState(phase, significance, changes, buffer, log, version, name);
        ghost var step := Step(before, ps[i]);
        var r := ParseLine(ps[i], phase, significance, log);
        if r.Err? {
          ScanStepErr(ps, i, before, r.error);
          return Some(r.error);
        }
        phase, significance, log := r.value.0, r.value.1, r.value.2;
        assert ScanState(phase, significance, changes, buffer, log, version, name) == step.value;
        ScanStepOk(ps, i, before, step.value);
        StepFresh(before, ps[i]);
        i := i + 1;
      }
      assert ps[i..] == [];
      releaseLog := Concat(log);
      parsed := true;
      return None;
    }

    /** `parse unless parsed?` */
    method EnsureParsed() returns (err: Option<ParseError>)
      modifies this
      ensures Outcome(State(), err) == Prepare(old(State()))
    {
      if parsed {
        err := None;
      } else {
        err := Parse();
      }
    }

    /** rewrite */
    method Rewrite(date: string) returns (err: Option<ParseError>)
      requires ValidVersion(version)
      modifies this
      ensures Outcome(State(), err) == RewriteOutcome(old(State()), date)
    {
      ghost var d := State();
      var log := ChangelogText(changes, release, NextVersionText(version, changes), date);
      assert log == PendingLog(d, date);
      content := Render(log, buffer);
      err := None;
      if !release.NoRelease? {
        releaseLog := log;
        if release.Named? {
          name := Some(release.name);
        }
        ghost var named := State();
        RewriteReleased(d, date, named);
        err := Parse();
        ghost var o := ParseOutcome(named);
        if err.Some? {
          return;
        }
        assert State() == o.doc;
        Released();
      } else {
        assert State() == d.(content := Render(PendingLog(d, date), d.buffer));
      }
    }

    /** The end of rewrite once the release is written: nothing is pending any more. */
    method Released()
      modifies this
      ensures State() == old(State()).(release := NoRelease, changes := NoChanges)
    {
      release := NoRelease;
      changes := NoChanges;
    }

    /** update_history, with its hash given as (significance, message) pairs and the release apart. */
    method UpdateHistory(entries: seq<(Bucket, string)>, newRelease: Release, date: string)
      returns (err: Option<ParseError>)
      requires ValidVersion(version)
      modifies this
      ensures Outcome(State(), err) == UpdateOutcome(old(State()), entries, newRelease, date)
    {
      ghost var d := State();
      err := EnsureParsed();
      if err.Some? {
        return;
      }
      UpdatePrepared(d, entries, newRelease, date);
      release := newRelease;
      AppendAll(entries);
      err := Rewrite(date);
    }

    /** The each loop of update_history: every message appended to its bucket. */
    method AppendAll(entries: seq<(Bucket, string)>)
      modifies this
      ensures State() == old(State()).(changes := AppendEntries(old(changes), entries))
    {
      var i := 0;
      while i < |entries|
        invariant 0 <= i <= |entries|
        invariant State() == old(State()).(changes := AppendEntries(old(changes), entries[..i]))
      {
        changes := changes.Append(entries[i].0, entries[i].1);
        assert entries[..i + 1][..i] == entries[..i];
        i := i + 1;
      }
      assert entries[..|entries|] == entries;
    }

    /** changes? */
    method HasPendingChanges() returns (r: Result<bool, ParseError>)
      modifies this
      ensures State() == Prepare(old(State())).doc
      ensures r == Answer(Prepare(old(State())).error, HasChanges(changes))
    {
      var err := EnsureParsed();
      r := Answer(err, HasChanges(changes));
    }

    /** current_version */
    method CurrentVersion() returns (r: Result<string, ParseError>)
      modifies this
      ensures State() == Prepare(old(State())).doc
      ensures r == Answer(Prepare(old(State())).error, CurrentVersionString(version))
    {
      var err := EnsureParsed();
      r := Answer(err, CurrentVersionString(version));
    }

    /** next_version */
    method NextVersion() returns (r: Result<string, ParseError>)
      requires ValidVersion(version)
      modifies this
      ensures ValidVersion(version)
      ensures State() == Prepare(old(State())).doc
      ensures r == Answer(Prepare(old(State())).error, VersionString(NextVersionText(version, changes)))
    {
      var err := EnsureParsed();
      r := Answer(err, VersionString(NextVersionText(version, changes)));
    }

    /** release_log */
    method ReleaseLog() returns (r: Result<string, ParseError>)
      modifies this
      ensures State() == Prepare(old(State())).doc
      ensures r == Answer(Prepare(old(State())).error, releaseLog)
    {
      var err := EnsureParsed();
      r := Answer(err, releaseLog);
    }

    /** current_release_name */
    method CurrentReleaseName() returns (r: Result<Option<string>, ParseError>)
      modifies this
      ensures State() == Prepare(old(State())).doc
      ensures r == Answer(Prepare(old(State())).error, name)
    {
      var err := EnsureParsed();
      r := Answer(err, name);
    }

    /** changelog: its `changes?` parses unless parsed. */
    method Changelog(date: string) returns (r: Result<string, ParseError>)
      requires ValidVersion(version)
      modifies this
      ensures ValidVersion(version)
      ensures State() == Prepare(old(State())).doc
      ensures r == Answer(Prepare(old(State())).error, PendingLog(State(), date))
    {
      var err := EnsureParsed();
      r := Answer(err, ChangelogText(changes, release, NextVersionText(version, changes), date));
    }
  }
}
