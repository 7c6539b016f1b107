// Historian::Parser: an array of lines read from the history with a cursor
// into it. scan_for_release moves the cursor to a release heading,
// each_line_in_release walks the release's lines, status gives a release's
// text, and add inserts bullets and sections at the cursor.

module Parser {
  import opened Wrappers
  import opened Text
  import opened ParserLines

  // ---------------------------------------------------------------------------
  // What the cursor operations compute, on the array of lines.

  /** The first index from `i` on whose line contains `needle`, or |data|. */
  function FindFrom(data: seq<string>, needle: string, i: nat): (k: nat)
    requires i <= |data|
    ensures i <= k <= |data|
    ensures k < |data| ==> Contains(data[k], needle)
    ensures forall j :: i <= j < k ==> !Contains(data[j], needle)
    decreases |data| - i
  {
    if i == |data| || Contains(data[i], needle) then i else FindFrom(data, needle, i + 1)
  }

  /**
   * Array#find_index with `line =~ /needle/`, the needle taken literally:
   * the first line containing it, or |data| when none does.
   */
  function FirstContaining(data: seq<string>, needle: string): (k: nat)
    ensures k <= |data|
    ensures k < |data| ==> Contains(data[k], needle)
    ensures forall j :: 0 <= j < k ==> !Contains(data[j], needle)
  {
    FindFrom(data, needle, 0)
  }

  /** Any index with the properties of the first containing line is it. */
  lemma {:induction false} FindFromIs(data: seq<string>, needle: string, i: nat, k: nat)
    requires i <= k <= |data|
    requires k < |data| ==> Contains(data[k], needle)
    requires forall j :: i <= j < k ==> !Contains(data[j], needle)
    ensures FindFrom(data, needle, i) == k
    decreases k - i
  {
    if i < k {
      FindFromIs(data, needle, i + 1, k);
    }
  }

  /**
   * Where each_line_in_release stops when started at `i`: at the first line
   * from `i` on that starts with "== ", or at the last line (the loop runs
   * while the cursor is below |data| - 1), or at `i` itself when it is
   * already there or beyond.
   */
  function ReleaseEnd(data: seq<string>, i: nat): (e: nat)
    ensures i <= e
    ensures e > i ==> e <= |data| - 1
    ensures forall j :: i <= j < e ==> !IsReleaseLine(data[j])
    ensures e + 1 < |data| ==> IsReleaseLine(data[e])
    decreases |data| - i
  {
    if i + 1 >= |data| || IsReleaseLine(data[i]) then i else ReleaseEnd(data, i + 1)
  }

  /** The lines after the trailing ones matching `^\s*$`, which status pops. */
  function TrimTrailing(ls: seq<string>): (r: seq<string>)
    ensures |r| <= |ls| && r == ls[..|r|]
    ensures r != [] ==> !IsBlankish(r[|r| - 1])
    ensures forall j :: |r| <= j < |ls| ==> IsBlankish(ls[j])
    decreases |ls|
  {
    if ls != [] && IsBlankish(ls[|ls| - 1]) then
      var r := TrimTrailing(ls[..|ls| - 1]);
      assert ls[..|ls| - 1][..|r|] == ls[..|r|];
      r
    else ls
  }

  /**
   * The lines status gathers for a release: the first line containing
   * "== <release>" and the lines each_line_in_release yields after it.
   */
  function ReleaseSection(data: seq<string>, release: Option<string>): seq<string> {
    var k := FirstContaining(data, ReleaseString(release));
    if k == |data| then [] else data[k..ReleaseEnd(data, k + 1)]
  }

  /** A heading and the lines yielded after it are the slice from the heading on. */
  lemma HeadingAndBody(data: seq<string>, k: nat, e: nat, body: seq<string>)
    requires k < e <= |data| && |body| == e - (k + 1)
    requires forall j :: 0 <= j < |body| ==> body[j] == data[k + 1 + j]
    ensures [data[k]] + body == data[k..e]
  {
  }

  /** What status returns: the gathered lines without the blank tail, joined; nil when none is left. */
  function StatusText(data: seq<string>, release: Option<string>): Option<string> {
    var t := TrimTrailing(ReleaseSection(data, release));
    if t == [] then None else Some(Concat(t))
  }

  /** A line as read from the history that contains "== " is never popped as blank. */
  lemma HeadingNotBlankish(l: string, needle: string)
    requires IsPhysicalLine(l) && Contains(l, needle) && |needle| >= 3 && needle[..3] == "== "
    ensures !IsBlankish(l)
  {
    var p :| 0 <= p <= |l| - |needle| && OccursAt(l, needle, p);
    assert l[p] == needle[0] == '=';
    forall i, j | 0 <= i <= j <= |l| && IsLineStart(l, i) && EndsLineAt(l, j)
      ensures !AllSpace(l, i, j)
    {
      assert i == 0 && j >= |l| - 1;
      assert !IsSpace(l[p]);
    }
  }

  /**
   * Over lines read from the history, status is nil exactly when no line
   * contains "== <release>", and otherwise begins with that heading line.
   */
  lemma StatusNilExactly(data: seq<string>, release: Option<string>)
    requires forall j :: 0 <= j < |data| ==> IsPhysicalLine(data[j])
    ensures var k := FirstContaining(data, ReleaseString(release));
            (StatusText(data, release).None? <==> k == |data|)
            && (k < |data| ==> data[k] <= StatusText(data, release).value)
  {
    var k := FirstContaining(data, ReleaseString(release));
    if k < |data| {
      var section := ReleaseSection(data, release);
      var t := TrimTrailing(section);
      assert section[0] == data[k];
      HeadingNotBlankish(data[k], ReleaseString(release));
      assert t != [] && t[0] == data[k];
      assert Concat(t) == data[k] + Concat(t[1..]);
    }
  }

  /**
   * Array#insert at the cursor: the lines before it stay, the new line is
   * at it, and the lines from it on move down by one, in their order.
   */
  function InsertAt(data: seq<string>, i: nat, line: string): (r: seq<string>)
    requires i <= |data|
    ensures |r| == |data| + 1 && r[i] == line
    ensures forall k :: 0 <= k < i ==> r[k] == data[k]
    ensures forall k :: i <= k < |data| ==> r[k + 1] == data[k]
  {
    data[..i] + [line] + data[i..]
  }

  /** `data[i]`, with Ruby's negative indices counted from the end. */
  function RubyAt(data: seq<string>, i: int): Option<string> {
    if 0 <= i < |data| then Some(data[i])
    else if -|data| <= i < 0 then Some(data[|data| + i])
    else None
  }

  /**
   * Whether at_section_end? answers with a true value: the line at the cursor
   * matches `^\s+$` and the line before it does not (the line before index 0
   * being the last line).
   */
  predicate SectionEndAt(data: seq<string>, i: nat) {
    match RubyAt(data, i)
    case None => false
    case Some(line) =>
      IsBlankLine(line) && !(RubyAt(data, i - 1).Some? && IsBlankLine(RubyAt(data, i - 1).value))
  }

  /** The lines insert writes for a list of bullets. */
  function BulletLines(items: seq<string>): (r: seq<string>)
    ensures |r| == |items|
    ensures forall k :: 0 <= k < |items| ==> r[k] == ListString(items[k]) + "\n"
  {
    seq(|items|, k requires 0 <= k < |items| => ListString(items[k]) + "\n")
  }

  /** The lines add writes for a key left over after the walk. */
  function NewSection(m: NameMap, key: string, items: Items): seq<string> {
    [SectionString(m, NameOr(m, key)) + "\n"] + BulletLines(Flatten(items)) + ["\n"]
  }

  /** The new sections for the left-over keys, in the hash's order. */
  function NewSections(m: NameMap, adds: Additions): seq<string>
    decreases |adds|
  {
    if adds == [] then []
    else NewSections(m, adds[..|adds| - 1]) + NewSection(m, adds[|adds| - 1].0, adds[|adds| - 1].1)
  }

  // ---------------------------------------------------------------------------
  // What add computes, line by line.

  /** The state of the walk in add: the array, the cursor, the pending key and the hash. */
  datatype Walker = Walker(data: seq<string>, index: nat, key: Option<string>, left: Additions)

  /**
   * One pass of the block add gives each_line_in_release, and the cursor
   * step after it. With a key pending at a section end, the key's messages
   * are deleted from the hash and inserted as bullets at the cursor, which
   * ends past them and past the line; with no key pending, the line is
   * compared with the keys.
   */
  function Step(m: NameMap, w: Walker): (r: Walker)
    requires w.index < |w.data|
    ensures w.index < r.index <= |r.data| && |r.data| - r.index == |w.data| - w.index - 1
    ensures r.data[..w.index] == w.data[..w.index] && forall x :: x in w.data ==> x in r.data
  {
    if w.key.Some? && SectionEndAt(w.data, w.index) then
      var (v, rest) := Delete(w.left, w.key.value);
      var items := Deleted(v);
      var d := w.data[..w.index] + BulletLines(items) + w.data[w.index..];
      assert forall x :: x in w.data ==> x in d by {
        assert w.data == w.data[..w.index] + w.data[w.index..];
      }
      Walker(d, w.index + |items| + 1, None, rest)
    else if w.key.None? then
      Walker(w.data, w.index + 1, CompareSectionKeys(m, Keys(w.left), w.data[w.index]), w.left)
    else
      w.(index := w.index + 1)
  }

  /**
   * each_line_in_release with add's block: steps while the cursor is before
   * the last line and not on a release heading.
   */
  function Walk(m: NameMap, w: Walker): (r: Walker)
    requires w.index <= |w.data|
    ensures r.index <= |r.data| && (r.index + 1 >= |r.data| || IsReleaseLine(r.data[r.index]))
    decreases |w.data| - w.index
  {
    if w.index + 1 >= |w.data| || IsReleaseLine(w.data[w.index]) then w
    else Walk(m, Step(m, w))
  }

  /**
   * The start of add: the array and the cursor once the first release line
   * is "== In Git", found there or inserted with an empty line.
   */
  function PendingStage(d0: seq<string>): (r: (seq<string>, nat))
    ensures 0 < r.1 <= |r.0| && PendingFirst(r.0[..r.1])
  {
    var k := FirstContaining(d0, ReleaseString(None));
    if k < |d0| && Contains(d0[k], ReleaseString(Some(PendingLabel))) then
      PendingFound(d0, k);
      (d0, k + 1)
    else
      var d := d0[..k] + [ReleaseString(Some(PendingLabel)) + "\n"] + [("" + "\n")] + d0[k..];
      PendingInserted(d0, k, d);
      (d, k + 2)
  }

  /** add on the array `d0`: the array it returns, and the hash it leaves. */
  function AddResult(m: NameMap, d0: seq<string>, adds: Additions): (r: (seq<string>, Additions))
  {
    var (d1, i1) := PendingStage(d0);
    var w := Walk(m, Walker(d1, i1, None, adds));
    (w.data[..w.index] + NewSections(m, w.left) + w.data[w.index..], w.left)
  }

  // ---------------------------------------------------------------------------
  // How add changes the array: only by inserting lines at the cursor.

  /**
   * From the array `d0` with the cursor at `i0` to `d1` with the cursor at
   * `i1`: the lines before `i0` are as they were, the lines from `i1` on are
   * the lines of `d0` from `j` on, and between them are the lines of `d0`
   * from `i0` to `j` with added lines inserted.
   */
  predicate Advanced(d0: seq<string>, i0: nat, d1: seq<string>, i1: nat, j: nat) {
    i0 <= i1 <= |d1| && i0 <= j <= |d0|
    && d1[..i0] == d0[..i0] && d1[i1..] == d0[j..]
    && Extends(d0[i0..j], d1[i0..i1])
  }

  lemma AdvancedStart(d: seq<string>, i0: nat, i: nat)
    requires i0 <= i <= |d|
    ensures Advanced(d, i0, d, i, i)
  {
    ExtendsRefl(d[i0..i]);
  }

  /** Array#insert of a block into the middle of an array. */
  lemma InsertBlock(pre: seq<string>, a: seq<string>, b: seq<string>, post: seq<string>)
    ensures var d := pre + a + post;
            d[..|pre| + |a|] + b + d[|pre| + |a|..] == pre + (a + b) + post
  {
    var d := pre + a + post;
    assert d[..|pre| + |a|] == pre + a;
    assert d[|pre| + |a|..] == post;
  }

  lemma BulletsAdded(items: seq<string>)
    ensures AllAdded(BulletLines(items))
  {
    forall k | 0 <= k < |items|
      ensures IsAddedLine(BulletLines(items)[k])
    {
      assert (ListString(items[k]) + "\n")[..2] == "* ";
    }
  }

  /** Inserting added lines at the cursor and stepping over them. */
  lemma AdvancedInsert(d0: seq<string>, i0: nat, d: seq<string>, i: nat, j: nat, block: seq<string>)
    requires Advanced(d0, i0, d, i, j) && AllAdded(block)
    ensures Advanced(d0, i0, d[..i] + block + d[i..], i + |block|, j)
  {
    var d' := d[..i] + block + d[i..];
    assert d'[..i0] == d[..i0];
    assert d'[i + |block|..] == d[i..];
    assert d'[i0..i + |block|] == d[i0..i] + block;
    ExtendsByAdded(block);
    ExtendsConcat(d0[i0..j], d[i0..i], [], block);
    assert d0[i0..j] + [] == d0[i0..j];
  }

  /** Stepping the cursor over a line that was there. */
  lemma AdvancedSkip(d0: seq<string>, i0: nat, d: seq<string>, i: nat, j: nat)
    requires Advanced(d0, i0, d, i, j) && i < |d|
    ensures j < |d0| && Advanced(d0, i0, d, i + 1, j + 1)
  {
    assert d[i..][0] == d0[j..][0];
    assert d[i0..i + 1] == d[i0..i] + [d[i]];
    assert d0[i0..j + 1] == d0[i0..j] + [d0[j]];
    ExtendsKept(d0[i0..j], d[i0..i], d[i]);
    assert d[i + 1..] == d[i..][1..];
  }

  /** Inserting added lines at the cursor, then stepping over the line that was there. */
  lemma AdvancedStep(d0: seq<string>, i0: nat, d: seq<string>, i: nat, j: nat, block: seq<string>, d': seq<string>, i': nat)
    requires Advanced(d0, i0, d, i, j) && AllAdded(block) && i < |d|
    requires d' == d[..i] + block + d[i..] && i' == i + |block| + 1
    ensures i' <= |d'| && j < |d0| && Advanced(d0, i0, d', i', j + 1)
  {
    AdvancedInsert(d0, i0, d, i, j, block);
    AdvancedSkip(d0, i0, d', i + |block|, j);
  }

  /** Two advances in a row are one. */
  lemma AdvancedTrans(d0: seq<string>, i0: nat, d1: seq<string>, i1: nat, j1: nat,
                      d2: seq<string>, i2: nat, j2: nat)
    requires Advanced(d0, i0, d1, i1, j1) && Advanced(d1, i1, d2, i2, j2)
    ensures j1 + (j2 - i1) <= |d0| && Advanced(d0, i0, d2, i2, j1 + (j2 - i1))
  {
    var j := j1 + (j2 - i1);
    assert |d1[i1..]| == |d0[j1..]|;
    assert d1[i1..j2] == d0[j1..j] by {
      assert d1[i1..j2] == d1[i1..][..j2 - i1];
    }
    assert d1[j2..] == d0[j..] by {
      assert d1[j2..] == d1[i1..][j2 - i1..];
    }
    assert d2[..i0] == d1[..i0] by {
      assert d2[..i0] == d2[..i1][..i0];
    }
    assert d2[i0..i1] == d1[i0..i1] by {
      assert d2[i0..i1] == d2[..i1][i0..];
    }
    ExtendsConcat(d0[i0..j1], d1[i0..i1], d0[j1..j], d2[i1..i2]);
    assert d0[i0..j1] + d0[j1..j] == d0[i0..j];
    assert d2[i0..i1] + d2[i1..i2] == d2[i0..i2];
  }

  /** An advance over the whole array: every line is kept, in order, among added ones. */
  lemma AdvancedExtends(d0: seq<string>, d1: seq<string>, i1: nat, j: nat)
    requires Advanced(d0, 0, d1, i1, j)
    ensures Extends(d0, d1)
  {
    ExtendsRefl(d0[j..]);
    ExtendsConcat(d0[0..j], d1[0..i1], d0[j..], d1[i1..]);
    assert d0[0..j] + d0[j..] == d0;
    assert d1[0..i1] + d1[i1..] == d1;
  }

  /**
   * The first line that contains "== " contains "== In Git": the pending
   * release is the first release scan_for_release finds.
   */
  predicate PendingFirst(data: seq<string>) {
    var k := FirstContaining(data, ReleaseString(None));
    k < |data| && Contains(data[k], ReleaseString(Some(PendingLabel)))
  }

  /** PendingFirst only depends on the lines up to the one it finds. */
  lemma PendingFirstPrefix(a: seq<string>, b: seq<string>, p: nat)
    requires PendingFirst(a) && FirstContaining(a, ReleaseString(None)) < p <= |a| && p <= |b| && b[..p] == a[..p]
    ensures PendingFirst(b)
  {
    var k := FirstContaining(a, ReleaseString(None));
    assert forall j :: 0 <= j <= k ==> b[j] == b[..p][j] == a[..p][j] == a[j];
    FindFromIs(b, ReleaseString(None), 0, k);
  }

  // ---------------------------------------------------------------------------
  // The parser.

  class Parser {
    var data: seq<string>
    var index: nat
    const names: NameMap

    /** Parser.new(io, config): the lines of the IO, the cursor on the first. */
    constructor(text: string, names: NameMap)
      ensures data == Lines(text) && index == 0 && this.names == names
    {
      data := Lines(text);
      index := 0;
      this.names := names;
    }

    method PrepareToScan()
      modifies this
      ensures data == old(data) && index == 0
    {
      index := 0;
    }

    /**
     * at_section_end?: when the cursor's line matches `^\s+$`, the loop
     * inspects the line before it five times over, its index never moving;
     * a blank line there answers false, a bullet true, and otherwise
     * `5.times` itself returns 5, a true value. Without a blank line at the
     * cursor the answer is nil. `r` is whether the answer is true.
     */
    method AtSectionEnd() returns (r: bool)
      ensures r == SectionEndAt(data, index)
    {
      r := false;
      if index < |data| && IsBlankLine(data[index]) {
        var searchIndex: int := index - 1;
        var before := RubyAt(data, searchIndex);
        r := true;
        var offset := 0;
        while offset < 5
          invariant 0 <= offset <= 5
          invariant searchIndex == index - 1
          invariant offset > 0 ==> !(before.Some? && IsBlankLine(before.value))
        {
          if before.Some? && IsBlankLine(before.value) {
            return false;
          }
          if before.Some? && IsBulletLine(before.value) {
            return true;
          }
          offset := offset + 1;
        }
      }
    }

    /**
     * scan_for_release: the cursor goes to the first line containing
     * "== <release>" ("== " for nil), and that line is returned; without
     * one the cursor goes to |data| and nil is returned.
     */
    method ScanForRelease(release: Option<string>) returns (r: Option<string>)
      modifies this
      ensures data == old(data)
      ensures index == FirstContaining(data, ReleaseString(release))
      ensures r == if index < |data| then Some(data[index]) else None
    {
      var needle := ReleaseString(release);
      var i := 0;
      while i < |data| && !Contains(data[i], needle)
        invariant 0 <= i <= |data|
        invariant FindFrom(data, needle, i) == FindFrom(data, needle, 0)
      {
        i := i + 1;
      }
      if i < |data| {
        index := i;
        r := Some(data[i]);
      } else {
        index := |data|;
        r := None;
      }
    }

    /**
     * each_line_in_release, with a block that collects what it is given:
     * the lines from the cursor on, up to the first that starts with "== ",
     * where the cursor stays; the last line of the array is never reached.
     */
    method EachLineInRelease() returns (yielded: seq<string>)
      modifies this
      ensures data == old(data)
      ensures index == ReleaseEnd(data, old(index))
      ensures |yielded| == index - old(index)
      ensures forall j :: 0 <= j < |yielded| ==> yielded[j] == data[old(index) + j]
    {
      yielded := [];
      while index < |data| - 1
        invariant old(index) <= index
        invariant data == old(data)
        invariant ReleaseEnd(data, index) == ReleaseEnd(data, old(index))
        invariant |yielded| == index - old(index)
        invariant forall j :: 0 <= j < |yielded| ==> yielded[j] == data[old(index) + j]
        decreases |data| - index
      {
        var line := data[index];
        if IsReleaseLine(line) {
          break;
        }
        yielded := yielded + [line];
        index := index + 1;
      }
    }

    /**
     * status: the release's heading and lines, the trailing lines matching
     * `^\s*$` popped, joined; nil when nothing is left. The cursor ends where
     * the walk over the release stopped, or one past the end of the array
     * when no heading was found.
     */
    method Status(release: Option<string>) returns (r: Option<string>)
      modifies this
      ensures data == old(data)
      ensures r == StatusText(data, release)
      ensures var k := FirstContaining(data, ReleaseString(release));
              index == if k < |data| then ReleaseEnd(data, k + 1) else |data| + 1
    {
      PrepareToScan();
      var heading := ScanForRelease(release);
      ghost var k := index;
      index := index + 1;
      var body := EachLineInRelease();
      // compact! drops the nil scan_for_release gives when nothing matches.
      var buffer := (if heading.Some? then [heading.value] else []) + body;
      assert buffer == ReleaseSection(data, release) by {
        if k < |data| {
          HeadingAndBody(data, k, ReleaseEnd(data, k + 1), body);
        } else {
          assert body == [];
        }
      }
      buffer := PopBlankTail(buffer);
      r := if buffer == [] then None else Some(Concat(buffer));
    }

    /** status's loop: the last line is popped while it matches `^\s*$`. */
    static method PopBlankTail(lines: seq<string>) returns (t: seq<string>)
      ensures t == TrimTrailing(lines)
    {
      t := lines;
      while t != [] && IsBlankish(t[|t| - 1])
        invariant TrimTrailing(t) == TrimTrailing(lines)
      {
        t := t[..|t| - 1];
      }
    }

    /** insert: the string and a line feed go in at the cursor, and the cursor moves past it. */
    method Insert(s: string)
      requires index <= |data|
      modifies this
      ensures data == InsertAt(old(data), old(index), s + "\n")
      ensures index == old(index) + 1
    {
      data := data[..index] + [s + "\n"] + data[index..];
      index := index + 1;
    }

    /** One bullet per message inserted at the cursor, in order, the cursor moving past each. */
    method InsertBullets(items: seq<string>)
      requires index <= |data|
      modifies this
      ensures data == old(data)[..old(index)] + BulletLines(items) + old(data)[old(index)..]
      ensures index == old(index) + |items|
    {
      var i := 0;
      while i < |items|
        invariant 0 <= i <= |items|
        invariant index == old(index) + i
        invariant data == old(data)[..old(index)] + BulletLines(items[..i]) + old(data)[old(index)..]
      {
        Insert(ListString(items[i]));
        assert BulletLines(items[..i + 1]) == BulletLines(items[..i]) + [ListString(items[i]) + "\n"];
        i := i + 1;
      }
      assert items[..i] == items;
    }

    /**
     * The start of add: the cursor goes to the first line containing "== ";
     * unless it contains "== In Git", the heading "== In Git" and an empty
     * line are inserted there; the cursor ends after them, or after the line.
     */
    method EnsurePendingHeading() returns (ghost j: nat)
      modifies this
      ensures var k := FirstContaining(old(data), ReleaseString(None));
              if k < |old(data)| && Contains(old(data)[k], ReleaseString(Some(PendingLabel)))
              then data == old(data) && index == k + 1
              else data == old(data)[..k] + [ReleaseString(Some(PendingLabel)) + "\n", "\n"] + old(data)[k..]
                   && index == k + 2
      ensures (data, index) == PendingStage(old(data))
      ensures Advanced(old(data), 0, data, index, j)
      ensures PendingFirst(data[..index])
    {
      PrepareToScan();
      var releaseLine := ScanForRelease(None);
      ghost var k := index;
      ghost var d0 := data;
      if releaseLine.Some? && Contains(releaseLine.value, ReleaseString(Some(PendingLabel))) {
        index := index + 1;
        j := k + 1;
        PendingFound(d0, k);
      } else {
        var h := ReleaseString(Some(PendingLabel));
        Insert(h);
        assert data == d0[..k] + [h + "\n"] + d0[k..];
        Insert("");
        assert data == d0[..k] + [h + "\n"] + [("" + "\n")] + d0[k..];
        j := k;
        PendingInserted(d0, k, data);
      }
    }

    /**
     * One line of the walk in add. With a key pending and the cursor at a
     * section end, the key's messages are deleted from the hash and go in as
     * bullets at the cursor, and the key is cleared; with no key pending,
     * the line is compared with the hash's keys.
     */
    method WalkLine(key: Option<string>, left: Additions) returns (key': Option<string>, left': Additions)
      requires index < |data|
      modifies this
      ensures key.Some? && SectionEndAt(old(data), old(index)) ==>
                var items := Deleted(Delete(left, key.value).0);
                left' == Delete(left, key.value).1 && key' == None && index == old(index) + |items|
                && data == old(data)[..old(index)] + BulletLines(items) + old(data)[old(index)..]
      ensures !(key.Some? && SectionEndAt(old(data), old(index))) ==>
                data == old(data) && index == old(index) && left' == left
                && key' == (if key.None? then CompareSectionKeys(names, Keys(left), old(data)[old(index)]) else key)
    {
      var atEnd := false;
      if key.Some? {
        atEnd := AtSectionEnd();
      }
      key' := key;
      left' := left;
      if key.Some? && atEnd {
        var (v, rest) := Delete(left, key.value);
        left' := rest;
        InsertBullets(Deleted(v));
        key' := None;
      } else if key.None? {
        key' := CompareSectionKeys(names, Keys(left), data[index]);
      }
    }

    /**
     * The walk in add over the pending release's lines: the array, the
     * cursor and the hash end as Walk says, starting with no key pending;
     * bullets go in at section ends, nothing else changes, and the keys
     * whose bullets went in are gone from the hash.
     */
    method WalkRelease(additions: Additions) returns (left: Additions, ghost j: nat)
      requires index <= |data|
      modifies this
      ensures var w := Walk(names, Walker(old(data), old(index), None, additions));
              data == w.data && index == w.index && left == w.left
      ensures Advanced(old(data), old(index), data, index, j)
      ensures index + 1 >= |data| || IsReleaseLine(data[index])
      ensures |left| <= |additions| && forall p :: p in left ==> p in additions
    {
      ghost var d0 := data;
      ghost var i0 := index;
      var key: Option<string> := None;
      left := additions;
      j := index;
      AdvancedStart(data, index, index);
      while index < |data| - 1
        invariant Advanced(d0, i0, data, index, j) && index <= |data|
        invariant Walk(names, Walker(data, index, key, left)) == Walk(names, Walker(d0, i0, None, additions))
        invariant |left| <= |additions| && forall p :: p in left ==> p in additions
        decreases |d0| - j
      {
        var line := data[index];
        if IsReleaseLine(line) {
          break;
        }
        key, left := WalkStep(key, left, d0, i0, j);
        j := j + 1;
      }
    }

    /** WalkLine and the step of the cursor that follows it, as an advance over the array. */
    method WalkStep(key: Option<string>, left: Additions, ghost d0: seq<string>, ghost i0: nat, ghost j: nat)
      returns (key': Option<string>, left': Additions)
      requires Advanced(d0, i0, data, index, j) && index < |data|
      modifies this
      ensures Walker(data, index, key', left') == Step(names, Walker(old(data), old(index), key, left))
      ensures Advanced(d0, i0, data, index, j + 1)
      ensures |left'| <= |left| && forall p :: p in left' ==> p in left
    {
      ghost var d := data;
      ghost var i := index;
      key', left' := WalkLine(key, left);
      ghost var block: seq<string> := [];
      if key.Some? && SectionEndAt(d, i) {
        block := BulletLines(Deleted(Delete(left, key.value).0));
        DeleteShrinks(left, key.value);
        BulletsAdded(Deleted(Delete(left, key.value).0));
      } else {
        assert d[..i] + block + d[i..] == d;
      }
      index := index + 1;
      AdvancedStep(d0, i0, d, i, j, block, data, index);
    }

    /** The keys left after the walk get their sections at the cursor. */
    method AppendSections(left: Additions)
      requires index <= |data|
      modifies this
      ensures data == old(data)[..old(index)] + NewSections(names, left) + old(data)[old(index)..]
      ensures index == old(index) + |NewSections(names, left)|
    {
      var i := 0;
      while i < |left|
        invariant 0 <= i <= |left|
        invariant data == old(data)[..old(index)] + NewSections(names, left[..i]) + old(data)[old(index)..]
        invariant index == old(index) + |NewSections(names, left[..i])|
      {
        InsertSection(left[i].0, left[i].1);
        InsertBlock(old(data)[..old(index)], NewSections(names, left[..i]), NewSection(names, left[i].0, left[i].1),
                    old(data)[old(index)..]);
        assert left[..i + 1][..i] == left[..i];
        i := i + 1;
      }
      assert left[..i] == left;
    }

    /** One left-over key's section: its heading, its bullets, an empty line. */
    method InsertSection(key: string, items: Items)
      requires index <= |data|
      modifies this
      ensures data == old(data)[..old(index)] + NewSection(names, key, items) + old(data)[old(index)..]
      ensures index == old(index) + |NewSection(names, key, items)|
    {
      ghost var d0 := data;
      ghost var i0 := index;
      var heading := SectionString(names, NameOr(names, key));
      var bullets := BulletLines(Flatten(items));
      Insert(heading);
      assert data == d0[..i0] + [heading + "\n"] + d0[i0..];
      InsertBullets(Flatten(items));
      InsertBlock(d0[..i0], [heading + "\n"], bullets, d0[i0..]);
      assert data == d0[..i0] + ([heading + "\n"] + bullets) + d0[i0..];
      Insert("");
      assert "" + "\n" == "\n";
      InsertBlock(d0[..i0], [heading + "\n"] + bullets, ["\n"], d0[i0..]);
      assert NewSection(names, key, items) == [heading + "\n"] + bullets + ["\n"];
      assert data == d0[..i0] + NewSection(names, key, items) + d0[i0..];
    }

    /**
     * add: make sure the first release is "== In Git", walk it appending
     * bullets to the sections the hash names, then write a section for each
     * key left. The hash loses the keys whose bullets were appended, and
     * the cursor ends after the new sections.
     */
    method Add(additions: Additions) returns (result: seq<string>, left: Additions)
      modifies this
      ensures result == data
      ensures (data, left) == AddResult(names, old(data), additions)
      ensures var (d1, i1) := PendingStage(old(data));
              var w := Walk(names, Walker(d1, i1, None, additions));
              index == w.index + |NewSections(names, w.left)|
      ensures Extends(old(data), data)
      ensures PendingFirst(data)
      ensures forall p :: p in left ==> p in additions
    {
      ghost var d0 := data;
      ghost var j1 := EnsurePendingHeading();
      ghost var d1 := data;
      ghost var i1 := index;
      ghost var j2;
      left, j2 := WalkRelease(additions);
      ghost var d2 := data;
      ghost var i2 := index;
      AppendSections(left);
      NewSectionsAdded(names, left);
      AddComposes(d0, d1, i1, j1, d2, i2, j2, NewSections(names, left), data);
      result := data;
    }
  }

  /** The three stages of add together: only added lines, and the pending release first. */
  lemma AddComposes(d0: seq<string>, d1: seq<string>, i1: nat, j1: nat, d2: seq<string>, i2: nat, j2: nat,
                    s: seq<string>, d3: seq<string>)
    requires Advanced(d0, 0, d1, i1, j1) && Advanced(d1, i1, d2, i2, j2) && PendingFirst(d1[..i1])
    requires AllAdded(s) && d3 == d2[..i2] + s + d2[i2..]
    ensures Extends(d0, d3) && PendingFirst(d3)
  {
    AdvancedTrans(d0, 0, d1, i1, j1, d2, i2, j2);
    AdvancedInsert(d0, 0, d2, i2, j1 + (j2 - i1), s);
    AdvancedExtends(d0, d3, i2 + |s|, j1 + (j2 - i1));
    assert d3[..i1] == d2[..i1] == d1[..i1];
    PendingFirstPrefix(d1[..i1], d3, i1);
  }

  /** The pending heading found where the cursor stops: add goes on below it. */
  lemma PendingFound(d0: seq<string>, k: nat)
    requires k == FirstContaining(d0, ReleaseString(None)) && k < |d0|
    requires Contains(d0[k], ReleaseString(Some(PendingLabel)))
    ensures Advanced(d0, 0, d0, k + 1, k + 1) && PendingFirst(d0[..k + 1])
  {
    AdvancedStart(d0, 0, k);
    AdvancedSkip(d0, 0, d0, k, k);
    assert forall i :: 0 <= i < k ==> d0[..k + 1][i] == d0[i];
    FindFromIs(d0[..k + 1], ReleaseString(None), 0, k);
  }

  /** The pending heading and its blank line inserted where the cursor stops. */
  lemma PendingInserted(d0: seq<string>, k: nat, d: seq<string>)
    requires k == FirstContaining(d0, ReleaseString(None))
    requires d == d0[..k] + [ReleaseString(Some(PendingLabel)) + "\n"] + [("" + "\n")] + d0[k..]
    ensures d == d0[..k] + [ReleaseString(Some(PendingLabel)) + "\n", "\n"] + d0[k..]
    ensures Advanced(d0, 0, d, k + 2, k) && PendingFirst(d[..k + 2])
  {
    var h := ReleaseString(Some(PendingLabel));
    var block := [h + "\n", "\n"];
    assert "" + "\n" == "\n";
    assert d == d0[..k] + block + d0[k..];
    AdvancedStart(d0, 0, k);
    AllAddedPending();
    AdvancedInsert(d0, 0, d0, k, k, block);
    var pre := d[..k + 2];
    assert pre == d0[..k] + block;
    assert OccursAt(pre[k], ReleaseString(None), 0);
    assert forall i :: 0 <= i < k ==> pre[i] == d0[i];
    FindFromIs(pre, ReleaseString(None), 0, k);
    assert OccursAt(pre[k], h, 0);
  }

  /** The pending heading and the empty line are added lines. */
  lemma AllAddedPending()
    ensures AllAdded([ReleaseString(Some(PendingLabel)) + "\n", "\n"])
  {
  }

  /** Every line of the new sections is one add writes. */
  lemma {:induction false} NewSectionsAdded(m: NameMap, adds: Additions)
    ensures AllAdded(NewSections(m, adds))
    decreases |adds|
  {
    if adds != [] {
      NewSectionsAdded(m, adds[..|adds| - 1]);
      var last := adds[|adds| - 1];
      NewSectionAdded(m, last.0, last.1);
      AllAddedAppend(NewSections(m, adds[..|adds| - 1]), NewSection(m, last.0, last.1));
    }
  }

  /** Every line of one new section is one add writes. */
  lemma NewSectionAdded(m: NameMap, key: string, items: Items)
    ensures AllAdded(NewSection(m, key, items))
  {
    var h := SectionString(m, NameOr(m, key)) + "\n";
    assert h[..4] == "=== ";
    BulletsAdded(Flatten(items));
    AllAddedAppend([h], BulletLines(Flatten(items)));
    AllAddedAppend([h] + BulletLines(Flatten(items)), ["\n"]);
  }

  lemma AllAddedAppend(a: seq<string>, b: seq<string>)
    requires AllAdded(a) && AllAdded(b)
    ensures AllAdded(a + b)
  {
    assert forall i :: 0 <= i < |a + b| ==> (a + b)[i] == if i < |a| then a[i] else b[i - |a|];
  }
}
