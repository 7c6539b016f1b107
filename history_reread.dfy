// What parse finds when it reads back text that rewrite wrote: how each kind
// of written line is classified, and how the scan goes over a written
// changelog.

module HistoryReread {
  import opened Wrappers
  import opened Text
  import opened HistoryModel
  import opened HistoryLines
  import opened HistoryScan
  import opened HistoryChangelog

  lemma ClassifyOne(x: string)
    ensures ClassifyAll([x]) == [ParsedLine(x, KindOf(x))]
  {
  }

  lemma ClassifyAllAppend(a: seq<string>, b: seq<string>)
    ensures ClassifyAll(a + b) == ClassifyAll(a) + ClassifyAll(b)
  {
    assert forall i :: 0 <= i < |a + b| ==> (a + b)[i] == if i < |a| then a[i] else b[i - |a|];
  }

  lemma {:induction false} BulletBlockAt(es: seq<string>, i: nat)
    requires i < |es|
    ensures |BulletBlock(es)| == |es| && BulletBlock(es)[i] == "* " + es[i] + "\n"
    decreases i
  {
    assert BulletBlock(es) == ["* " + es[0] + "\n"] + BulletBlock(es[1..]);
    if i > 0 {
      BulletBlockAt(es[1..], i - 1);
    }
  }

  /** No line that starts with something other than "==" is a release heading. */
  lemma NotReleaseHeading(line: string)
    requires |line| < 3 || line[0] != '=' || line[2] != ' '
    ensures ReleaseHeading(line).None?
  {
    if |line| >= 3 {
      assert line[..3][0] == line[0] && line[..3][2] == line[2];
    }
  }

  /** A written bullet reads back as an entry line for its entry. */
  lemma KindOfBullet(e: string)
    requires e != [] && !HasNewline(e)
    ensures KindOf("* " + e + "\n") == EntryLine(e)
  {
    var line := "* " + e + "\n";
    assert line[0] == '*';
    NotReleaseHeading(line);
    assert !IsBugfixesHeading(line) by {
      assert ("=== " + SectionTitle(Patch))[0] == '=';
      assert ("=== " + SectionTitle(Patch) + "\n")[0] == '=';
    }
    EntryOfBullet(e, "\n");
  }

  /** A blank line is neither a heading nor an entry. */
  lemma KindOfBlank()
    ensures KindOf("\n") == OtherLine
  {
    NotReleaseHeading("\n");
  }

  /** The "== In Git" heading of a pending changelog is not a release heading. */
  lemma KindOfInGit()
    ensures KindOf("== In Git" + "\n") == OtherLine
  {
    var line := "== In Git" + "\n";
    assert ReleaseHeading(line).None? by {
      assert line[..3] == "== " && line[3..] == "In Git\n";
      assert SplitDigits(line[3..]).0 == [];
    }
    assert !IsBugfixesHeading(line) by { assert line[2] == ' '; }
    assert EntryOf(line).None? by { assert line[0] == '='; }
  }

  /**
   * A section header line reads back as the Bugfixes heading for the patch
   * section, and as an ordinary line for the major and minor sections.
   */
  lemma KindOfSectionHeader(b: Bucket)
    ensures KindOf("=== " + SectionTitle(b) + "\n") == if b == Patch then BugfixesLine else OtherLine
  {
    var line := "=== " + SectionTitle(b) + "\n";
    assert line[0] == '=' && line[2] == '=';
    NotReleaseHeading(line);
    assert EntryOf(line).None?;
    if b != Patch {
      assert line[4] == SectionTitle(b)[0] != 'B';
      assert !IsBugfixesHeading(line);
    }
  }

  /** Entry lines append their entries to the current bucket; without one the first raises. */
  lemma {:induction false} ScanEntries(ps: seq<ParsedLine>, es: seq<string>, st: ScanState)
    requires |ps| == |es| && forall i :: 0 <= i < |ps| ==> ps[i].kind == EntryLine(es[i])
    requires st.phase == GatheringCurrentHistory
    ensures st.significance.Some? ==>
              Scan(ps, st) == Ok(st.(changes := st.changes.Extend(st.significance.value, es)))
    ensures st.significance.None? && es != [] ==> Scan(ps, st).Err?
    decreases |ps|
  {
    if ps != [] {
      if st.significance.Some? {
        var b := st.significance.value;
        var next := st.(changes := st.changes.Append(b, es[0]));
        assert Scan(ps, st) == Scan(ps[1..], next);
        ScanEntries(ps[1..], es[1..], next);
      }
    } else {
      assert es == [];
    }
  }

  /** Ordinary lines leave the scan where it was. */
  lemma {:induction false} ScanOthers(ps: seq<ParsedLine>, st: ScanState)
    requires forall i :: 0 <= i < |ps| ==> ps[i].kind == OtherLine
    requires st.phase == GatheringCurrentHistory
    ensures Scan(ps, st) == Ok(st)
    decreases |ps|
  {
    if ps != [] {
      ScanOthers(ps[1..], st);
    }
  }

  /** Entries that read back: non-empty and on one line. */
  predicate ReadableEntries(c: Changes) {
    SingleLineEntries(c) && forall b, i :: 0 <= i < |c.Get(b)| ==> c.Get(b)[i] != []
  }

  lemma BulletKinds(es: seq<string>)
    requires forall i :: 0 <= i < |es| ==> es[i] != [] && !HasNewline(es[i])
    ensures var ps := ClassifyAll(BulletBlock(es));
            |ps| == |es| && forall i :: 0 <= i < |ps| ==> ps[i].kind == EntryLine(es[i])
  {
    forall i | 0 <= i < |es|
      ensures ClassifyAll(BulletBlock(es))[i].kind == EntryLine(es[i])
    {
      BulletBlockAt(es, i);
      KindOfBullet(es[i]);
    }
  }

  /**
   * Reading back one written section: an empty bucket wrote nothing; the
   * Bugfixes section selects the patch bucket and appends its entries to it;
   * a major or minor section leaves the significance unset when none was set,
   * so its first entry raises.
   */
  lemma ScanSection(c: Changes, b: Bucket, st: ScanState)
    requires ReadableEntries(c) && st.phase == GatheringCurrentHistory
    ensures c.Get(b) == [] ==> Scan(ClassifyAll(SectionBlock(c, b)), st) == Ok(st)
    ensures c.Get(b) != [] && b == Patch ==>
              Scan(ClassifyAll(SectionBlock(c, b)), st)
              == Ok(st.(significance := Some(Patch), changes := st.changes.Extend(Patch, c.patch)))
    ensures c.Get(b) != [] && b != Patch && st.significance.None? ==>
              Scan(ClassifyAll(SectionBlock(c, b)), st).Err?
  {
    var es := c.Get(b);
    if es != [] {
      var header := ["\n", "=== " + SectionTitle(b) + "\n"];
      ClassifyAllAppend(header, BulletBlock(es));
      ScanAppend(ClassifyAll(header), ClassifyAll(BulletBlock(es)), st);
      KindOfBlank();
      KindOfSectionHeader(b);
      var hs := ClassifyAll(header);
      var st1 := if b == Patch then st.(significance := Some(Patch)) else st;
      assert Scan(hs, st) == Ok(st1) by {
        assert hs[0].kind == OtherLine;
        assert Scan(hs, st) == Scan(hs[1..], st);
        assert hs[1..][0].kind == hs[1].kind;
        assert Scan(hs[1..], st) == Scan(hs[2..], st1);
        assert hs[2..] == [];
      }
      BulletKinds(es);
      ScanEntries(ClassifyAll(BulletBlock(es)), es, st1);
    } else {
      assert SectionBlock(c, b) == [];
      assert ClassifyAll([]) == [];
    }
  }

  /** The kinds of the lines a written section shows: none is a release heading. */
  lemma SectionNotRelease(c: Changes, b: Bucket)
    requires ReadableEntries(c)
    ensures var ps := ClassifyAll(SectionBlock(c, b));
            forall i :: 0 <= i < |ps| ==> !ps[i].kind.ReleaseLine?
  {
    var es := c.Get(b);
    if es != [] {
      var header := ["\n", "=== " + SectionTitle(b) + "\n"];
      ClassifyAllAppend(header, BulletBlock(es));
      KindOfBlank();
      KindOfSectionHeader(b);
      BulletKinds(es);
    }
  }

  /**
   * A pending changelog read back from the start of parse: with only the
   * Bugfixes section it selects the patch bucket and recovers its entries; a
   * major or minor section makes parse raise at its first entry.
   */
  lemma ScanPendingBlock(c: Changes, st: ScanState)
    requires HasChanges(c) && ReadableEntries(c)
    requires st.phase == GatheringCurrentHistory && st.significance.None?
    ensures var r := Scan(ClassifyAll(ChangelogBlock(c, "== In Git")), st);
            (c.major == [] && c.minor == [] ==>
               r == Ok(st.(significance := Some(Patch), changes := st.changes.Extend(Patch, c.patch))))
            && (c.major != [] || c.minor != [] ==> r.Err?)
  {
    var h := ClassifyAll(["== In Git" + "\n"]);
    var pm := ClassifyAll(SectionBlock(c, Major));
    var pn := ClassifyAll(SectionBlock(c, Minor));
    var pp := ClassifyAll(SectionBlock(c, Patch));
    ClassifyBlock(c, "== In Git");
    ScanFour(h, pm, pn, pp, st);
    ScanInGit(st);
    ScanSection(c, Major, st);
    if c.major == [] {
      ScanSection(c, Minor, st);
      if c.minor == [] {
        ScanSection(c, Patch, st);
      }
    }
  }

  /** The "== In Git" heading leaves the scan where it was. */
  lemma ScanInGit(st: ScanState)
    requires st.phase == GatheringCurrentHistory
    ensures Scan(ClassifyAll(["== In Git" + "\n"]), st) == Ok(st)
  {
    ClassifyOne("== In Git" + "\n");
    KindOfInGit();
    ScanOtherLine(ClassifyAll(["== In Git" + "\n"])[0], st);
  }

  lemma ScanOtherLine(p: ParsedLine, st: ScanState)
    requires p.kind == OtherLine && st.phase == GatheringCurrentHistory
    ensures Scan([p], st) == Ok(st)
  {
    assert Scan([p], st) == Scan([p][1..], st);
    assert [p][1..] == [];
  }

  /** A written changelog is classified section by section. */
  lemma ClassifyBlock(c: Changes, heading: string)
    ensures ClassifyAll(ChangelogBlock(c, heading))
            == ClassifyAll([heading + "\n"]) + ClassifyAll(SectionBlock(c, Major))
               + ClassifyAll(SectionBlock(c, Minor)) + ClassifyAll(SectionBlock(c, Patch))
  {
    var h := [heading + "\n"];
    var bm := SectionBlock(c, Major);
    var bn := SectionBlock(c, Minor);
    var bp := SectionBlock(c, Patch);
    ClassifyAllAppend(h + bm + bn, bp);
    ClassifyAllAppend(h + bm, bn);
    ClassifyAllAppend(h, bm);
  }

  lemma ScanFour(h: seq<ParsedLine>, a: seq<ParsedLine>, b: seq<ParsedLine>, c: seq<ParsedLine>, st: ScanState)
    ensures Scan(h + a + b + c, st) == Then(Then(Then(Scan(h, st), a), b), c)
  {
    ScanAppend(h + a + b, c, st);
    ScanAppend(h + a, b, st);
    ScanAppend(h, a, st);
  }

  /** The lines of a release heading written by changelog, after the read-back. */
  lemma KindOfReleaseHeading(v: VersionText, release: Release, date: string)
    requires IsVersionText(v) && !release.NoRelease? && IsDate(date)
    requires release.Named? ==> !HasNewline(release.name)
    ensures KindOf(HeadingLine(release, v, date) + "\n")
            == ReleaseLine(v, if release.Named? then Some(release.name) else None)
  {
    var tail := ReleaseString(release) + (" - " + date);
    var line := HeadingLine(release, v, date) + "\n";
    HeadingLineSplit("== ", VersionString(v), tail);
    assert !HasNewline(tail) by { TailSingleLine(release, date); }
    var t := tail + "\n";
    RestOfLine(tail);
    assert t[0] == ' ' by {
      if release.Named? { assert tail[0] == ' '; } else { assert tail[0] == ' '; }
    }
    ReleaseHeadingOf(line, v, t);
    if release.Named? {
      assert tail == " " + release.name + " - " + date;
      NameOfNamed(release.name, date);
    } else {
      assert tail == " - " + date;
      NameOfAnonymous(date);
    }
  }

  lemma HeadingLineSplit(a: string, b: string, c: string)
    ensures a + b + c + "\n" == a + b + (c + "\n")
  {
  }

  /** A line feed ends the rest of the line. */
  lemma RestOfLine(tail: string)
    requires !HasNewline(tail)
    ensures (tail + "\n")[..LineEnd(tail + "\n", 0)] == tail
  {
    var t := tail + "\n";
    assert forall j :: 0 <= j < |tail| ==> t[j] == tail[j];
    LineEndStops(t, 0, |tail|);
  }

  lemma TailSingleLine(release: Release, date: string)
    requires IsDate(date) && (release.Named? ==> !HasNewline(release.name))
    ensures !HasNewline(ReleaseString(release) + (" - " + date))
  {
    var d := " - " + date;
    assert !HasNewline(d) by {
      assert forall j :: 3 <= j < |d| ==> d[j] == date[j - 3];
    }
    NoNewlineAppend(ReleaseString(release), d);
  }

  lemma NoNewlineAppend(a: string, b: string)
    requires !HasNewline(a) && !HasNewline(b)
    ensures !HasNewline(a + b)
  {
    assert forall j :: 0 <= j < |a + b| ==> (a + b)[j] == if j < |a| then a[j] else b[j - |a|];
  }

  /** Every release heading has the shape "== <version><rest>" with a rest not starting with a digit. */
  lemma ReleaseHeadingShape(line: string) returns (t: string)
    requires ReleaseHeading(line).Some?
    ensures line == "== " + VersionString(ReleaseHeading(line).value.version) + t
    ensures t == [] || !IsDigit(t[0])
    ensures ReleaseHeading(line).value.rest == t[..LineEnd(t, 0)]
  {
    var (d1, r1) := SplitDigits(line[3..]);
    var (d2, r2) := SplitDigits(r1[1..]);
    var (d3, r3) := SplitDigits(r2[1..]);
    t := r3;
    assert ReleaseHeading(line) == Some(Heading(VersionText(d1, d2, d3), r3[..LineEnd(r3, 0)]));
    ShapeOfSplit(line, d1, r1, d2, r2, d3, r3);
  }

  lemma ShapeOfSplit(line: string, d1: string, r1: string, d2: string, r2: string, d3: string, r3: string)
    requires |line| >= 3 && line[..3] == "== "
    requires d1 + r1 == line[3..] && r1 != [] && r1[0] == '.'
    requires d2 + r2 == r1[1..] && r2 != [] && r2[0] == '.'
    requires d3 + r3 == r2[1..]
    ensures line == "== " + VersionString(VersionText(d1, d2, d3)) + r3
  {
    assert r2 == "." + (d3 + r3) by { assert r2 == [r2[0]] + r2[1..]; }
    assert r1 == "." + (d2 + r2) by { assert r1 == [r1[0]] + r1[1..]; }
    assert line == "== " + (d1 + r1) by { assert line == line[..3] + line[3..]; }
  }

  /** puts of a release heading that is the file's last line, without a line feed, keeps it a heading. */
  lemma HeadingWritten(l: string)
    requires IsPhysicalLine(l) && ReleaseHeading(l).Some?
    ensures ReleaseHeading(PutsText(l)).Some?
    ensures ReleaseHeading(PutsText(l)).value.version == ReleaseHeading(l).value.version
  {
    if !EndsWithNewline(l) {
      var t := ReleaseHeadingShape(l);
      var v := ReleaseHeading(l).value.version;
      var p := "== " + VersionString(v);
      assert !HasNewline(t) by { SuffixSingleLine(l, p, t); }
      HeadingLineSplit("== ", VersionString(v), t);
      ReleaseHeadingOf(l + "\n", v, t + "\n");
    }
  }

  lemma SuffixSingleLine(l: string, p: string, t: string)
    requires IsPhysicalLine(l) && !EndsWithNewline(l) && l == p + t
    ensures !HasNewline(t)
  {
    assert forall j :: 0 <= j < |t| ==> t[j] == l[|p| + j];
  }

  /**
   * What rewrite writes, read back line by line: the changelog's lines, two
   * blank lines, and the buffer with every line ended by a line feed.
   */
  lemma WrittenLines(c: Changes, release: Release, next: VersionText, date: string, buffer: seq<string>)
    requires HasChanges(c) && SingleLineEntries(c) && PhysicalLines(buffer)
    requires !HasNewline(HeadingLine(release, next, date))
    ensures Lines(Render(ChangelogText(c, release, next, date), buffer))
            == ChangelogBlock(c, HeadingLine(release, next, date)) + ["\n", "\n"] + WrittenBuffer(buffer)
  {
    var log := ChangelogText(c, release, next, date);
    RenderReadsBack(log, buffer);
    PutsChangelog(c, release, next, date);
    ChangelogReadsBack(c, release, next, date);
  }

  /** With nothing pending, rewrite writes three blank lines before the buffer. */
  lemma WrittenLinesEmpty(buffer: seq<string>)
    requires PhysicalLines(buffer)
    ensures Lines(Render("", buffer)) == ["\n", "\n", "\n"] + WrittenBuffer(buffer)
  {
    RenderReadsBack("", buffer);
    assert PutsText("") == "\n";
    LinesOfPhysicalLine("\n");
  }
}
