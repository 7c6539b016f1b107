// HistoryFile#changelog and what rewrite writes back to the IO: the pending
// changelog text, and the text made of it, two blank lines and the buffer.

module HistoryChangelog {
  import opened Text
  import opened HistoryModel

  /** release_string: nothing for an unnamed release, a space and the name for a named one. */
  function ReleaseString(release: Release): string {
    match release
    case Named(n) => " " + n
    case _ => ""
  }

  /**
   * The first element of the changelog list: "== In Git" while no release is
   * pending, otherwise the next version, the release string and the date.
   */
  function HeadingLine(release: Release, next: VersionText, date: string): string {
    if release.NoRelease? then "== In Git"
    else "== " + VersionString(next) + (ReleaseString(release) + (" - " + date))
  }

  /** One "* <entry>" element per entry, in insertion order. */
  function Bullets(es: seq<string>): (r: seq<string>)
    ensures |r| == |es|
  {
    if es == [] then [] else ["* " + es[0]] + Bullets(es[1..])
  }

  /** The elements a non-empty bucket adds: its "\n=== <header>" and its bullets. */
  function SectionLines(c: Changes, b: Bucket): seq<string> {
    if c.Get(b) == [] then [] else ["\n=== " + SectionTitle(b)] + Bullets(c.Get(b))
  }

  /** The `log` list of changelog: the heading, then major, minor and patch in that order. */
  function ChangelogLines(c: Changes, heading: string): seq<string> {
    [heading] + SectionLines(c, Major) + SectionLines(c, Minor) + SectionLines(c, Patch)
  }

  /** Array#join("\n"). */
  function JoinLines(ls: seq<string>): string {
    if ls == [] then "" else if |ls| == 1 then ls[0] else ls[0] + "\n" + JoinLines(ls[1..])
  }

  /** The joined list begins with its first element. */
  lemma JoinLinesHead(ls: seq<string>)
    requires ls != []
    ensures |ls[0]| <= |JoinLines(ls)| && JoinLines(ls)[..|ls[0]|] == ls[0]
  {
    if |ls| > 1 {
      assert JoinLines(ls) == ls[0] + ("\n" + JoinLines(ls[1..]));
    }
  }

  /**
   * changelog: the empty string when no bucket holds an entry (whether or not
   * a release is pending), otherwise text that starts with the heading line.
   */
  function ChangelogText(c: Changes, release: Release, next: VersionText, date: string): (r: string)
    ensures r == [] <==> !HasChanges(c)
    ensures r != [] ==> |HeadingLine(release, next, date)| <= |r|
                        && r[..|HeadingLine(release, next, date)|] == HeadingLine(release, next, date)
  {
    if !HasChanges(c) then ""
    else
      var ls := ChangelogLines(c, HeadingLine(release, next, date));
      JoinLinesHead(ls);
      assert |ls[0]| > 0;
      JoinLines(ls)
  }

  // ---------------------------------------------------------------------------
  // The changelog as IO#each_line reads it back.

  /** Each element followed by a line feed. */
  function Terminate(ls: seq<string>): (r: seq<string>)
    ensures |r| == |ls|
  {
    if ls == [] then [] else [ls[0] + "\n"] + Terminate(ls[1..])
  }

  lemma {:induction false} TerminateAppend(a: seq<string>, b: seq<string>)
    ensures Terminate(a + b) == Terminate(a) + Terminate(b)
    decreases |a|
  {
    if a == [] {
      assert a + b == b;
    } else {
      assert (a + b)[0] == a[0] && (a + b)[1..] == a[1..] + b;
      TerminateAppend(a[1..], b);
    }
  }

  /** Joining with line feeds and ending with one is writing each element on its own line. */
  lemma {:induction false} JoinTerminated(ls: seq<string>)
    requires ls != []
    ensures JoinLines(ls) + "\n" == Concat(Terminate(ls))
    decreases |ls|
  {
    if |ls| > 1 {
      JoinTerminated(ls[1..]);
      assert Terminate(ls) == [ls[0] + "\n"] + Terminate(ls[1..]);
      assert JoinLines(ls) + "\n" == (ls[0] + "\n") + (JoinLines(ls[1..]) + "\n");
    } else {
      assert Terminate(ls) == [ls[0] + "\n"];
      assert Concat(Terminate(ls)) == ls[0] + "\n" + Concat([]);
    }
  }

  /** One "* <entry>\n" line per entry. */
  function BulletBlock(es: seq<string>): seq<string> {
    Terminate(Bullets(es))
  }

  /** The lines a non-empty bucket shows: a blank line, "=== <header>", its bullets. */
  function SectionBlock(c: Changes, b: Bucket): seq<string> {
    if c.Get(b) == [] then [] else ["\n", "=== " + SectionTitle(b) + "\n"] + BulletBlock(c.Get(b))
  }

  /** The lines of a written changelog: its heading, then each non-empty section. */
  function ChangelogBlock(c: Changes, heading: string): seq<string> {
    [heading + "\n"] + SectionBlock(c, Major) + SectionBlock(c, Minor) + SectionBlock(c, Patch)
  }

  /** No entry of any bucket holds a line feed. */
  predicate SingleLineEntries(c: Changes) {
    forall b, i :: 0 <= i < |c.Get(b)| ==> !HasNewline(c.Get(b)[i])
  }

  /** Every line of a list is a physical line ending with a line feed. */
  predicate FullLines(ls: seq<string>) {
    forall i :: 0 <= i < |ls| ==> IsPhysicalLine(ls[i]) && EndsWithNewline(ls[i])
  }

  lemma FullLinesAppend(a: seq<string>, b: seq<string>)
    requires FullLines(a) && FullLines(b)
    ensures FullLines(a + b)
  {
    assert forall i :: 0 <= i < |a + b| ==> (a + b)[i] == if i < |a| then a[i] else b[i - |a|];
  }

  /** A line without a line feed, then one: a physical line. */
  lemma FullLine(s: string)
    requires !HasNewline(s)
    ensures IsPhysicalLine(s + "\n") && EndsWithNewline(s + "\n")
  {
    assert forall j :: 0 <= j < |s| ==> (s + "\n")[j] == s[j];
  }

  /** A list of full lines reads back as itself. */
  lemma {:induction false} LinesOfFullLines(ls: seq<string>)
    requires FullLines(ls)
    ensures Lines(Concat(ls)) == ls
    decreases |ls|
  {
    if ls != [] {
      LinesAppend(ls[0], Concat(ls[1..]));
      LinesOfPhysicalLine(ls[0]);
      LinesOfFullLines(ls[1..]);
    }
  }

  lemma {:induction false} BulletBlockFull(es: seq<string>)
    requires forall i :: 0 <= i < |es| ==> !HasNewline(es[i])
    ensures FullLines(BulletBlock(es))
    decreases |es|
  {
    if es != [] {
      BulletBlockFull(es[1..]);
      var line := "* " + es[0];
      assert !HasNewline(line) by {
        assert forall j :: 2 <= j < |line| ==> line[j] == es[0][j - 2];
      }
      FullLine(line);
      assert BulletBlock(es) == [line + "\n"] + BulletBlock(es[1..]);
      FullLinesAppend([line + "\n"], BulletBlock(es[1..]));
    }
  }

  /** A section is written as the lines of its block. */
  lemma SectionBlockText(c: Changes, b: Bucket)
    requires SingleLineEntries(c)
    ensures FullLines(SectionBlock(c, b))
    ensures Concat(Terminate(SectionLines(c, b))) == Concat(SectionBlock(c, b))
  {
    var es := c.Get(b);
    if es != [] {
      BulletBlockFull(es);
      var title := "=== " + SectionTitle(b);
      FullLine(title);
      FullLinesAppend(["\n", title + "\n"], BulletBlock(es));
      assert "\n=== " + SectionTitle(b) == "\n" + title;
      TerminateAppend(["\n" + title], Bullets(es));
      BlankThenLine(title, BulletBlock(es));
    }
  }

  lemma BlankThenLine(title: string, rest: seq<string>)
    ensures Concat(["\n" + title + "\n"] + rest) == Concat(["\n", title + "\n"] + rest)
  {
    var a := ["\n" + title + "\n"] + rest;
    var b := ["\n", title + "\n"] + rest;
    assert a[0] == "\n" + title + "\n" && a[1..] == rest;
    assert b[0] == "\n" && b[1..] == [title + "\n"] + rest;
    assert b[1..][0] == title + "\n" && b[1..][1..] == rest;
  }

  /** The text of a heading followed by three groups of lines. */
  lemma ConcatFour(h: string, a: seq<string>, b: seq<string>, c: seq<string>)
    ensures Concat([h] + a + b + c) == h + (Concat(a) + (Concat(b) + Concat(c)))
  {
    var x, y, z := Concat(a), Concat(b), Concat(c);
    assert Concat([h] + a) == h + x by {
      assert Concat([h]) == h + Concat([]);
      ConcatAppend([h], a);
    }
    assert Concat([h] + a + b) == (h + x) + y by {
      ConcatAppend([h] + a, b);
    }
    assert Concat([h] + a + b + c) == ((h + x) + y) + z by {
      ConcatAppend([h] + a + b, c);
    }
    assert ((h + x) + y) + z == h + (x + (y + z));
  }

  lemma FullFour(h: string, a: seq<string>, b: seq<string>, c: seq<string>)
    requires FullLines([h]) && FullLines(a) && FullLines(b) && FullLines(c)
    ensures FullLines([h] + a + b + c)
  {
    FullLinesAppend([h], a);
    FullLinesAppend([h] + a, b);
    FullLinesAppend([h] + a + b, c);
  }

  /** The changelog list, written one element per line, is the text of its block. */
  lemma ChangelogBlockText(c: Changes, h: string)
    requires SingleLineEntries(c) && !HasNewline(h)
    ensures Concat(Terminate(ChangelogLines(c, h))) == Concat(ChangelogBlock(c, h))
    ensures FullLines(ChangelogBlock(c, h))
  {
    SectionBlockText(c, Major);
    SectionBlockText(c, Minor);
    SectionBlockText(c, Patch);
    FullLine(h);
    TerminateAppend([h] + SectionLines(c, Major) + SectionLines(c, Minor), SectionLines(c, Patch));
    TerminateAppend([h] + SectionLines(c, Major), SectionLines(c, Minor));
    TerminateAppend([h], SectionLines(c, Major));
    ConcatFour(h + "\n", Terminate(SectionLines(c, Major)), Terminate(SectionLines(c, Minor)),
               Terminate(SectionLines(c, Patch)));
    ConcatFour(h + "\n", SectionBlock(c, Major), SectionBlock(c, Minor), SectionBlock(c, Patch));
    FullFour(h + "\n", SectionBlock(c, Major), SectionBlock(c, Minor), SectionBlock(c, Patch));
  }

  /**
   * A changelog with pending entries, ended by the line feed puts adds, reads
   * back line by line as: its heading, then for major, minor and patch in that
   * order and only when the bucket holds entries, a blank line, the
   * "=== <header>" line and one "* <entry>" line per entry.
   */
  lemma ChangelogReadsBack(c: Changes, release: Release, next: VersionText, date: string)
    requires HasChanges(c) && SingleLineEntries(c)
    requires !HasNewline(HeadingLine(release, next, date))
    ensures Lines(ChangelogText(c, release, next, date) + "\n") == ChangelogBlock(c, HeadingLine(release, next, date))
    ensures FullLines(ChangelogBlock(c, HeadingLine(release, next, date)))
  {
    var h := HeadingLine(release, next, date);
    JoinTerminated(ChangelogLines(c, h));
    ChangelogBlockText(c, h);
    LinesOfFullLines(ChangelogBlock(c, h));
  }

  /** Text whose last character is not a line feed. */
  predicate OpenEnded(x: string) {
    x != [] && x[|x| - 1] != '\n'
  }

  predicate AllOpen(ls: seq<string>) {
    forall i :: 0 <= i < |ls| ==> OpenEnded(ls[i])
  }

  lemma AllOpenAppend(a: seq<string>, b: seq<string>)
    requires AllOpen(a) && AllOpen(b)
    ensures AllOpen(a + b)
  {
    assert forall i :: 0 <= i < |a + b| ==> (a + b)[i] == if i < |a| then a[i] else b[i - |a|];
  }

  lemma {:induction false} JoinLinesOpen(ls: seq<string>)
    requires ls != [] && AllOpen(ls)
    ensures OpenEnded(JoinLines(ls))
    decreases |ls|
  {
    if |ls| > 1 {
      JoinLinesOpen(ls[1..]);
      var j := JoinLines(ls[1..]);
      assert JoinLines(ls) == (ls[0] + "\n") + j;
      assert JoinLines(ls)[|JoinLines(ls)| - 1] == j[|j| - 1];
    }
  }

  /** A line without a line feed, after a prefix that does not end in one, does not end in one. */
  lemma OpenAfter(p: string, x: string)
    requires OpenEnded(p) && !HasNewline(x)
    ensures OpenEnded(p + x)
  {
    if x != [] {
      assert (p + x)[|p + x| - 1] == x[|x| - 1];
    }
  }

  lemma {:induction false} BulletsOpen(es: seq<string>)
    requires forall i :: 0 <= i < |es| ==> !HasNewline(es[i])
    ensures AllOpen(Bullets(es))
    decreases |es|
  {
    if es != [] {
      BulletsOpen(es[1..]);
      OpenAfter("* ", es[0]);
      AllOpenAppend(["* " + es[0]], Bullets(es[1..]));
    }
  }

  lemma SectionLinesOpen(c: Changes, b: Bucket)
    requires SingleLineEntries(c)
    ensures AllOpen(SectionLines(c, b))
  {
    var es := c.Get(b);
    if es != [] {
      BulletsOpen(es);
      var x := "\n=== " + SectionTitle(b);
      assert x[|x| - 1] == 's';
      AllOpenAppend([x], Bullets(es));
    }
  }

  /**
   * A changelog with pending entries on single lines never ends with a line
   * feed, so puts writes it followed by exactly one.
   */
  lemma PutsChangelog(c: Changes, release: Release, next: VersionText, date: string)
    requires HasChanges(c) && SingleLineEntries(c)
    requires !HasNewline(HeadingLine(release, next, date))
    ensures PutsText(ChangelogText(c, release, next, date)) == ChangelogText(c, release, next, date) + "\n"
  {
    var h := HeadingLine(release, next, date);
    assert OpenEnded(h) by {
      assert h[0] == '=';
      OpenAfter([h[0]], h[1..]);
      assert [h[0]] + h[1..] == h;
    }
    assert AllOpen(ChangelogLines(c, h)) by {
      SectionLinesOpen(c, Major);
      SectionLinesOpen(c, Minor);
      SectionLinesOpen(c, Patch);
      AllOpenFour([h], SectionLines(c, Major), SectionLines(c, Minor), SectionLines(c, Patch));
    }
    JoinLinesOpen(ChangelogLines(c, h));
  }

  lemma AllOpenFour(a: seq<string>, b: seq<string>, c: seq<string>, d: seq<string>)
    requires AllOpen(a) && AllOpen(b) && AllOpen(c) && AllOpen(d)
    ensures AllOpen(a + b + c + d)
  {
    AllOpenAppend(a, b);
    AllOpenAppend(a + b, c);
    AllOpenAppend(a + b + c, d);
  }

  // ---------------------------------------------------------------------------
  // rewrite: `puts changelog`, `puts ["\n"] * 2`, `puts @buffer`.

  /** puts of one string: a line feed is added unless the string already ends with one. */
  function PutsText(s: string): (r: string)
    ensures EndsWithNewline(r)
  {
    if EndsWithNewline(s) then s else s + "\n"
  }

  /** puts of the elements of a non-empty array, one after the other. */
  function PutsEach(ls: seq<string>): string {
    if ls == [] then "" else PutsText(ls[0]) + PutsEach(ls[1..])
  }

  /** puts of an array: an empty array writes a single line feed. */
  function PutsLines(ls: seq<string>): string {
    if ls == [] then "\n" else PutsEach(ls)
  }

  /** The text rewrite leaves in the IO: the changelog, two blank lines, the buffer. */
  function Render(log: string, buffer: seq<string>): string {
    PutsText(log) + PutsLines(["\n", "\n"]) + PutsLines(buffer)
  }

  /** Every element with its line feed, as puts writes it. */
  function Written(ls: seq<string>): (r: seq<string>)
    ensures |r| == |ls|
  {
    if ls == [] then [] else [PutsText(ls[0])] + Written(ls[1..])
  }

  /** The buffer as it is read back after puts: an empty buffer leaves one blank line. */
  function WrittenBuffer(buffer: seq<string>): seq<string> {
    if buffer == [] then ["\n"] else Written(buffer)
  }

  predicate PhysicalLines(ls: seq<string>) {
    forall i :: 0 <= i < |ls| ==> IsPhysicalLine(ls[i])
  }

  lemma {:induction false} WrittenFull(ls: seq<string>)
    requires PhysicalLines(ls)
    ensures FullLines(Written(ls)) && Concat(Written(ls)) == PutsEach(ls)
    decreases |ls|
  {
    if ls != [] {
      WrittenFull(ls[1..]);
      var l := ls[0];
      if !EndsWithNewline(l) {
        assert !HasNewline(l);
        FullLine(l);
      }
      FullLinesAppend([PutsText(l)], Written(ls[1..]));
    }
  }

  /**
   * What rewrite writes reads back as the changelog's own lines, two blank
   * lines, and the buffer with each line ended by a line feed.
   */
  lemma RenderReadsBack(log: string, buffer: seq<string>)
    requires PhysicalLines(buffer)
    ensures Lines(Render(log, buffer)) == Lines(PutsText(log)) + ["\n", "\n"] + WrittenBuffer(buffer)
    ensures FullLines(WrittenBuffer(buffer))
  {
    var wb := WrittenBuffer(buffer);
    var blanks: seq<string> := ["\n", "\n"];
    BufferPut(buffer);
    BlanksPut();
    FullLinesAppend(blanks, wb);
    ConcatAppend(blanks, wb);
    assert Render(log, buffer) == PutsText(log) + Concat(blanks + wb);
    LinesBeforeFull(PutsText(log), blanks + wb);
  }

  /** The buffer as puts writes it: full lines, one per element, or a lone line feed. */
  lemma BufferPut(buffer: seq<string>)
    requires PhysicalLines(buffer)
    ensures FullLines(WrittenBuffer(buffer)) && Concat(WrittenBuffer(buffer)) == PutsLines(buffer)
  {
    var wb := WrittenBuffer(buffer);
    if buffer == [] {
      assert FullLines(wb);
      assert Concat(wb) == "\n" + Concat([]);
    } else {
      WrittenFull(buffer);
    }
  }

  /** The two blank lines rewrite puts. */
  lemma BlanksPut()
    ensures FullLines(["\n", "\n"]) && PutsLines(["\n", "\n"]) == Concat(["\n", "\n"])
  {
    var blanks: seq<string> := ["\n", "\n"];
    assert FullLines(blanks);
    assert PutsLines(blanks) == "\n" + PutsEach(["\n"]);
    assert PutsEach(["\n"]) == "\n" + PutsEach([]);
    assert Concat(blanks) == "\n" + Concat(["\n"]);
    assert Concat(["\n"]) == "\n" + Concat([]);
  }

  /** Full lines after text that ends a line read back as that text's lines, then themselves. */
  lemma LinesBeforeFull(t: string, ls: seq<string>)
    requires EndsWithNewline(t) && FullLines(ls)
    ensures Lines(t + Concat(ls)) == Lines(t) + ls
  {
    LinesOfFullLines(ls);
    LinesAppend(t, Concat(ls));
  }
}
