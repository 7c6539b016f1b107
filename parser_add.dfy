// What Historian::Parser#add promises about where the messages of the hash
// end up: a key named by a section of the pending release gets its bullets
// at that section's end, and every message is written somewhere.

module ParserAdd {
  import opened Wrappers
  import opened ParserLines
  import opened Parser

  // ---------------------------------------------------------------------------
  // The walk, a step at a time.

  /** The walk leaves the lines before its cursor alone and only moves the cursor on. */
  lemma {:induction false} WalkKeepsPrefix(m: NameMap, w: Walker)
    requires w.index <= |w.data|
    ensures w.index <= Walk(m, w).index && Walk(m, w).data[..w.index] == w.data[..w.index]
    decreases |w.data| - w.index
  {
    if !(w.index + 1 >= |w.data| || IsReleaseLine(w.data[w.index])) {
      var s := Step(m, w);
      WalkKeepsPrefix(m, s);
      assert Walk(m, s).data[..w.index] == Walk(m, s).data[..s.index][..w.index];
    }
  }

  /**
   * With a key pending and no section end and no release heading before
   * line `e`, the walk passes over those lines without changing anything.
   */
  lemma {:induction false} WalkPending(m: NameMap, w: Walker, e: nat)
    requires w.key.Some? && w.index <= e && e + 1 < |w.data|
    requires forall j :: w.index <= j < e ==> !SectionEndAt(w.data, j) && !IsReleaseLine(w.data[j])
    ensures Walk(m, w) == Walk(m, w.(index := e))
    decreases e - w.index
  {
    if w.index < e {
      assert Step(m, w) == w.(index := w.index + 1);
      WalkPending(m, w.(index := w.index + 1), e);
    }
  }

  /**
   * With no key pending and no line before line `e` naming a key, the walk
   * passes over those lines without changing anything.
   */
  lemma {:induction false} WalkUnmatched(m: NameMap, w: Walker, e: nat)
    requires w.key.None? && w.index <= e && e + 1 < |w.data|
    requires forall j :: w.index <= j < e ==>
               CompareSectionKeys(m, Keys(w.left), w.data[j]).None? && !IsReleaseLine(w.data[j])
    ensures Walk(m, w) == Walk(m, w.(index := e))
    decreases e - w.index
  {
    if w.index < e {
      assert Step(m, w) == w.(index := w.index + 1);
      WalkUnmatched(m, w.(index := w.index + 1), e);
    }
  }

  /**
   * Where the walk puts a key's bullets: when the walk comes to line `i`
   * with no key pending and the line names key `k`, the bullets for `k`
   * (its messages, or one empty bullet when the hash has no such key) go in
   * directly before the first section end `e` after it, provided no release
   * heading comes first and `e` is not the last line. The lines before `e`
   * are kept, and the cursor ends past the section end.
   */
  lemma WalkPlacesBullets(m: NameMap, w: Walker, k: string, e: nat)
    requires w.key.None? && w.index < e && e + 1 < |w.data|
    requires CompareSectionKeys(m, Keys(w.left), w.data[w.index]) == Some(k)
    requires forall j :: w.index <= j <= e ==> !IsReleaseLine(w.data[j])
    requires forall j :: w.index < j < e ==> !SectionEndAt(w.data, j)
    requires SectionEndAt(w.data, e)
    ensures e + |BulletLines(Deleted(Delete(w.left, k).0))| < Walk(m, w).index
    ensures Placed(Walk(m, w).data, w.data[..e], BulletLines(Deleted(Delete(w.left, k).0)), w.data[e])
  {
    var w1 := Step(m, w);
    assert w1 == w.(index := w.index + 1, key := Some(k));
    WalkPending(m, w1, e);
    WalkAtSectionEnd(m, w1.(index := e), BulletLines(Deleted(Delete(w.left, k).0)));
  }

  /**
   * At a section end with a key pending, the key's bullets go in at the
   * cursor, and the rest of the walk leaves them and the lines above in place.
   */
  lemma WalkAtSectionEnd(m: NameMap, w: Walker, b: seq<string>)
    requires w.key.Some? && w.index + 1 < |w.data| && !IsReleaseLine(w.data[w.index])
    requires SectionEndAt(w.data, w.index)
    requires b == BulletLines(Deleted(Delete(w.left, w.key.value).0))
    ensures w.index + |b| < Walk(m, w).index
    ensures Placed(Walk(m, w).data, w.data[..w.index], b, w.data[w.index])
  {
    var e := w.index;
    var s := Step(m, w);
    assert s.data == w.data[..e] + b + w.data[e..] && s.index == e + |b| + 1;
    WalkKeepsPrefix(m, s);
    InsertedPrefix(w.data, e, b, s.data, Walk(m, s).data);
  }

  /** After inserting `b` at `e`, a sequence that keeps the lines up to the one after `b` has `b` placed. */
  lemma InsertedPrefix(d: seq<string>, e: nat, b: seq<string>, d': seq<string>, r: seq<string>)
    requires e < |d| && d' == d[..e] + b + d[e..]
    requires e + |b| + 1 <= |r| && r[..e + |b| + 1] == d'[..e + |b| + 1]
    ensures Placed(r, d[..e], b, d[e])
  {
    assert d'[..e + |b| + 1] == d[..e] + b + [d[e]];
    PrefixParts(r, d[..e], b, d[e]);
  }

  /** `r` starts with the lines `pre`, then the lines `b`, then the line `x`. */
  predicate Placed(r: seq<string>, pre: seq<string>, b: seq<string>, x: string) {
    |pre| + |b| < |r| && r[..|pre|] == pre && r[|pre|..|pre| + |b|] == b && r[|pre| + |b|] == x
  }

  lemma PrefixParts(r: seq<string>, pre: seq<string>, b: seq<string>, x: string)
    requires |pre| + |b| < |r| && r[..|pre| + |b| + 1] == pre + b + [x]
    ensures Placed(r, pre, b, x)
  {
  }

  // ---------------------------------------------------------------------------
  // Every message of the hash is written.

  /** Each pair of `adds` is still in the hash `left`, or its messages are bullets of `data`. */
  predicate Written(data: seq<string>, adds: Additions, left: Additions) {
    forall p :: p in adds ==> p in left || forall x :: x in Flatten(p.1) ==> ListString(x) + "\n" in data
  }

  /** The first pair of a key present in the hash. */
  lemma {:induction false} FirstKey(adds: Additions, key: string) returns (i: nat)
    requires key in Keys(adds)
    ensures i < |adds| && adds[i].0 == key && forall j :: 0 <= j < i ==> adds[j].0 != key
  {
    if adds[0].0 == key {
      i := 0;
    } else {
      assert Keys(adds) == [adds[0].0] + Keys(adds[1..]);
      var i' := FirstKey(adds[1..], key);
      i := i' + 1;
    }
  }

  /** Delete of a present key takes out one pair, whose messages it returns, and keeps the others. */
  lemma DeleteTakesOne(adds: Additions, key: string) returns (i: nat)
    requires key in Keys(adds)
    ensures i < |adds| && Delete(adds, key).0 == Some(adds[i].1)
    ensures forall p :: p in adds ==> p == adds[i] || p in Delete(adds, key).1
  {
    i := FirstKey(adds, key);
    DeleteAt(adds, key, i);
    SpliceKeeps(adds, i);
  }

  /** Taking element `i` out of a sequence keeps every other element. */
  lemma SpliceKeeps<T>(s: seq<T>, i: nat)
    requires i < |s|
    ensures forall p :: p in s ==> p == s[i] || p in s[..i] + s[i + 1..]
  {
  }

  /** Inserting bullets keeps every line and writes every message. */
  lemma BulletsInserted(d: seq<string>, at: nat, items: seq<string>, d': seq<string>)
    requires at <= |d| && d' == d[..at] + BulletLines(items) + d[at..]
    ensures forall x :: x in d ==> x in d'
    ensures forall x :: x in items ==> ListString(x) + "\n" in d'
  {
  }

  /** A pair taken out by Delete has its messages inserted by the step. */
  lemma StepWrites(m: NameMap, w: Walker, adds: Additions)
    requires w.index < |w.data| && Written(w.data, adds, w.left)
    ensures Written(Step(m, w).data, adds, Step(m, w).left)
  {
    if w.key.Some? && SectionEndAt(w.data, w.index) && w.key.value in Keys(w.left) {
      var i := DeleteTakesOne(w.left, w.key.value);
      var items := Flatten(w.left[i].1);
      BulletsInserted(w.data, w.index, items, Step(m, w).data);
    }
  }

  /** The walk keeps every message either in the hash or written as a bullet. */
  lemma {:induction false} WalkWrites(m: NameMap, w: Walker, adds: Additions)
    requires w.index <= |w.data| && Written(w.data, adds, w.left)
    ensures Written(Walk(m, w).data, adds, Walk(m, w).left)
    decreases |w.data| - w.index
  {
    if !(w.index + 1 >= |w.data| || IsReleaseLine(w.data[w.index])) {
      StepWrites(m, w, adds);
      WalkWrites(m, Step(m, w), adds);
    }
  }

  /** The new sections hold a heading and the bullets for every pair left. */
  lemma {:induction false} NewSectionsWrite(m: NameMap, left: Additions)
    ensures forall p :: p in left ==> SectionString(m, NameOr(m, p.0)) + "\n" in NewSections(m, left)
    ensures forall p, x :: p in left && x in Flatten(p.1) ==> ListString(x) + "\n" in NewSections(m, left)
    decreases |left|
  {
    if left != [] {
      var init := left[..|left| - 1];
      var last := left[|left| - 1];
      NewSectionsWrite(m, init);
      assert left == init + [last];
      var sec := NewSection(m, last.0, last.1);
      assert NewSections(m, left) == NewSections(m, init) + sec;
      NewSectionWrites(m, last.0, last.1);
    }
  }

  /** One new section holds its heading and its bullets. */
  lemma NewSectionWrites(m: NameMap, key: string, items: Items)
    ensures SectionString(m, NameOr(m, key)) + "\n" in NewSection(m, key, items)
    ensures forall x :: x in Flatten(items) ==> ListString(x) + "\n" in NewSection(m, key, items)
  {
  }

  /**
   * add writes every message of the hash as a bullet: at a section end of
   * the pending release, or in a new section after the walk. Every key left
   * in the hash gets a section heading, under its mapped name or itself.
   */
  lemma AddWritesEveryMessage(m: NameMap, d0: seq<string>, adds: Additions)
    ensures var (d, left) := AddResult(m, d0, adds);
            forall p, x :: p in adds && x in Flatten(p.1) ==> ListString(x) + "\n" in d
    ensures var (d, left) := AddResult(m, d0, adds);
            forall p :: p in left ==> SectionString(m, NameOr(m, p.0)) + "\n" in d
  {
    var (d1, i1) := PendingStage(d0);
    var w := Walker(d1, i1, None, adds);
    WalkWrites(m, w, adds);
    var r := Walk(m, w);
    NewSectionsWrite(m, r.left);
    var d := r.data[..r.index] + NewSections(m, r.left) + r.data[r.index..];
    assert AddResult(m, d0, adds) == (d, r.left);
    assert r.data == r.data[..r.index] + r.data[r.index..];
    assert forall x :: x in r.data ==> x in d;
  }

  // ---------------------------------------------------------------------------
  // Where add puts the bullets of the first section it recognises.

  /**
   * The first line of the pending release that names a key, `i`, is a
   * section heading whose bullets add puts directly before the first
   * section end `e` below it, when no release heading comes first and `e`
   * is not the last line; the lines before `e` are as they were after the
   * pending heading was settled.
   */
  lemma AddPlacesBullets(m: NameMap, d0: seq<string>, adds: Additions, d1: seq<string>, i1: nat,
                         i: nat, k: string, e: nat)
    requires PendingStage(d0) == (d1, i1)
    requires i1 <= i < e && e + 1 < |d1|
    requires forall j :: i1 <= j < i ==> CompareSectionKeys(m, Keys(adds), d1[j]).None?
    requires CompareSectionKeys(m, Keys(adds), d1[i]) == Some(k)
    requires forall j :: i1 <= j <= e ==> !IsReleaseLine(d1[j])
    requires forall j :: i < j < e ==> !SectionEndAt(d1, j)
    requires SectionEndAt(d1, e)
    ensures Placed(AddResult(m, d0, adds).0, d1[..e], BulletLines(Deleted(Delete(adds, k).0)), d1[e])
  {
    var b := BulletLines(Deleted(Delete(adds, k).0));
    var w := Walker(d1, i1, None, adds);
    WalkUnmatched(m, w, i);
    WalkPlacesBullets(m, w.(index := i), k, e);
    var r := Walk(m, w);
    assert r == Walk(m, w.(index := i));
    var d := r.data[..r.index] + NewSections(m, r.left) + r.data[r.index..];
    assert AddResult(m, d0, adds).0 == d;
    PlacedKept(r.data, r.index, NewSections(m, r.left), d, d1[..e], b, d1[e]);
  }

  /** Lines inserted after a placed block leave it placed. */
  lemma PlacedKept(r: seq<string>, at: nat, s: seq<string>, d: seq<string>,
                   pre: seq<string>, b: seq<string>, x: string)
    requires Placed(r, pre, b, x) && |pre| + |b| < at <= |r| && d == r[..at] + s + r[at..]
    ensures Placed(d, pre, b, x)
  {
  }
}
