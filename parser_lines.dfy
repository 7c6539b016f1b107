// The line-level vocabulary of Historian::Parser: the strings it builds
// (release_string, section_string, list_string), the patterns it matches
// against single elements of its line array, and the key lookups
// compare_section_keys does in the configured key-to-name map.

module ParserLines {
  import opened Wrappers
  import opened Text

  // ---------------------------------------------------------------------------
  // The configured map and the hash of additions.

  /**
   * The configured key-to-name map (`config.map`), as the pairs of a Ruby
   * hash in insertion order.
   */
  type NameMap = seq<(string, string)>

  /** `map[key]`: the value of the first pair with that key, or nil. */
  function Lookup(m: NameMap, key: string): (r: Option<string>)
    ensures r.Some? <==> exists i :: 0 <= i < |m| && m[i].0 == key
    ensures r.Some? ==> exists i :: 0 <= i < |m| && m[i] == (key, r.value)
  {
    if m == [] then None
    else if m[0].0 == key then Some(m[0].1)
    else
      var r := Lookup(m[1..], key);
      assert forall i :: 0 < i < |m| ==> m[i] == m[1..][i - 1];
      r
  }

  /** `map[key] || key`. */
  function NameOr(m: NameMap, key: string): string {
    match Lookup(m, key)
    case Some(name) => name
    case None => key
  }

  /**
   * `map.invert[value]`: Hash#invert lets a later pair overwrite an earlier
   * one with the same value, so this is the key of the last pair with that
   * value, or nil.
   */
  function Inverted(m: NameMap, value: string): (r: Option<string>)
    ensures r.Some? <==> exists i :: 0 <= i < |m| && m[i].1 == value
    decreases |m|
  {
    if m == [] then None
    else
      var last := m[|m| - 1];
      if last.1 == value then Some(last.0)
      else
        var r := Inverted(m[..|m| - 1], value);
        assert forall i :: 0 <= i < |m| - 1 ==> m[i] == m[..|m| - 1][i];
        r
  }

  /** The inverted hash maps a value to the key of the last pair holding it. */
  lemma {:induction false} InvertedAt(m: NameMap, value: string, i: nat)
    requires i < |m| && m[i].1 == value && forall j :: i < j < |m| ==> m[j].1 != value
    ensures Inverted(m, value) == Some(m[i].0)
    decreases |m|
  {
    if i < |m| - 1 {
      var init := m[..|m| - 1];
      assert init[i] == m[i];
      assert forall j :: i < j < |init| ==> init[j] == m[j];
      InvertedAt(init, value, i);
    }
  }

  /** A value of the additions hash: one message, or a list of them (`[lines].flatten`). */
  datatype Items = One(item: string) | Many(items: seq<string>)

  /** The additions passed to add: section key to messages, in insertion order. */
  type Additions = seq<(string, Items)>

  function Keys(adds: Additions): (r: seq<string>)
    ensures |r| == |adds| && forall i :: 0 <= i < |adds| ==> r[i] == adds[i].0
  {
    if adds == [] then [] else [adds[0].0] + Keys(adds[1..])
  }

  /** `[lines].flatten` for a value of the hash. */
  function Flatten(v: Items): seq<string> {
    match v
    case One(x) => [x]
    case Many(xs) => xs
  }

  /**
   * `[additions.delete(key)].flatten`: a missing key gives `[nil]`, whose
   * bullet list_string writes as "* " (nil interpolates as "").
   */
  function Deleted(v: Option<Items>): seq<string> {
    match v
    case Some(items) => Flatten(items)
    case None => [""]
  }

  /**
   * Hash#delete: the value of the key, if present, and the hash without
   * that key's pair.
   */
  function Delete(adds: Additions, key: string): (r: (Option<Items>, Additions))
    ensures r.0.Some? <==> key in Keys(adds)
    ensures r.0.None? ==> r.1 == adds
  {
    if adds == [] then (None, [])
    else if adds[0].0 == key then (Some(adds[0].1), adds[1..])
    else
      var (v, rest) := Delete(adds[1..], key);
      assert Keys(adds) == [adds[0].0] + Keys(adds[1..]);
      (v, [adds[0]] + rest)
  }

  /** Deleting only removes pairs. */
  lemma {:induction false} DeleteShrinks(adds: Additions, key: string)
    ensures |Delete(adds, key).1| <= |adds| && forall p :: p in Delete(adds, key).1 ==> p in adds
  {
    if adds != [] && adds[0].0 != key {
      DeleteShrinks(adds[1..], key);
    }
  }

  /** Taking element `i` out of a sequence is keeping its head and taking element `i - 1` out of its tail. */
  lemma ConsSplice<T>(s: seq<T>, i: nat)
    requires 0 < i < |s|
    ensures [s[0]] + (s[1..][..i - 1] + s[1..][i..]) == s[..i] + s[i + 1..]
  {
    assert s[1..][..i - 1] == s[1..i] && s[1..][i..] == s[i + 1..];
    assert s[..i] == [s[0]] + s[1..i];
  }

  /** A pair with another key stays in front of what deleting from the rest leaves. */
  lemma DeleteSkips(adds: Additions, key: string)
    requires adds != [] && adds[0].0 != key
    ensures Delete(adds, key) == (Delete(adds[1..], key).0, [adds[0]] + Delete(adds[1..], key).1)
  {
  }

  /** Deleting a key takes out the pair of its first occurrence and keeps the others in order. */
  lemma {:induction false} DeleteAt(adds: Additions, key: string, i: nat)
    requires i < |adds| && adds[i].0 == key && forall j :: 0 <= j < i ==> adds[j].0 != key
    ensures Delete(adds, key) == (Some(adds[i].1), adds[..i] + adds[i + 1..])
    decreases i
  {
    if i > 0 {
      DeleteAt(adds[1..], key, i - 1);
      DeleteSkips(adds, key);
      ConsSplice(adds, i);
    } else {
      assert adds[..0] + adds[1..] == adds[1..];
    }
  }

  // ---------------------------------------------------------------------------
  // The strings the parser builds.

  /** release_string: "== " and the release, where nil interpolates as "". */
  function ReleaseString(release: Option<string>): string {
    "== " + (if release.Some? then release.value else "")
  }

  /** The label of the pending release, "In Git". */
  const PendingLabel := "In Git"

  /** section_string: "=== " and the mapped name of the section, or the section itself. */
  function SectionString(m: NameMap, section: string): string {
    "=== " + NameOr(m, section)
  }

  /** list_string: a bullet. */
  function ListString(entry: string): string {
    "* " + entry
  }

  // ---------------------------------------------------------------------------
  // The patterns, with Ruby's multi-line anchors: `^` holds at the start and
  // after each line feed (but not at the very end), `$` before each line
  // feed and at the end.

  predicate AllSpace(s: string, i: nat, j: nat)
    requires i <= j <= |s|
  {
    forall k :: i <= k < j ==> IsSpace(s[k])
  }

  /** `s =~ /^\s+$/`: some line of s is whitespace only and not empty. */
  predicate IsBlankLine(s: string) {
    exists i, j :: 0 <= i < j <= |s| && IsLineStart(s, i) && AllSpace(s, i, j) && EndsLineAt(s, j)
  }

  /** `s =~ /^\s*$/`: some line of s is whitespace only, possibly empty. */
  predicate IsBlankish(s: string) {
    exists i, j :: 0 <= i <= j <= |s| && IsLineStart(s, i) && AllSpace(s, i, j) && EndsLineAt(s, j)
  }

  /** `s =~ /^\* \S+/`: some line of s starts with "* " and a non-space character. */
  predicate IsBulletLine(s: string) {
    exists i :: 0 <= i && i + 3 <= |s| && IsLineStart(s, i) && s[i] == '*' && s[i + 1] == ' ' && !IsSpace(s[i + 2])
  }

  /** `s =~ /^== /`: some line of s starts with "== ". */
  predicate IsReleaseLine(s: string) {
    exists i :: 0 <= i <= |s| && IsLineStart(s, i) && OccursAt(s, "== ", i)
  }

  /** Where a line of s starts with "=== ", from position p on: the first such place, or |s| + 1. */
  function SectionStart(s: string, p: nat): (q: nat)
    requires p <= |s| + 1
    ensures p <= q <= |s| + 1
    ensures q <= |s| ==> IsLineStart(s, q) && OccursAt(s, "=== ", q)
    ensures forall k :: p <= k < q ==> !(IsLineStart(s, k) && OccursAt(s, "=== ", k))
    decreases |s| + 1 - p
  {
    if p == |s| + 1 then p
    else if IsLineStart(s, p) && OccursAt(s, "=== ", p) then p
    else SectionStart(s, p + 1)
  }

  /**
   * `s =~ /^=== (.*)$/` and its capture: the rest of the first line that
   * starts with "=== ", up to its line feed (`.` stops there and `$` holds).
   */
  function SectionName(s: string): (r: Option<string>)
    ensures r.Some? <==> exists q :: 0 <= q <= |s| && IsLineStart(s, q) && OccursAt(s, "=== ", q)
    ensures r.Some? ==> !HasNewline(r.value)
  {
    var q := SectionStart(s, 0);
    if q > |s| then None
    else
      var e := LineEnd(s, q + 4);
      Some(s[q + 4..e])
  }

  // ---------------------------------------------------------------------------
  // compare_section_keys.

  /** `key == section || map[key] == section`. */
  predicate Names(m: NameMap, key: string, section: string) {
    key == section || Lookup(m, key) == Some(section)
  }

  /** `map.invert[key] || key`: the key the map gives this key as a name to, or the key. */
  function KeyOf(m: NameMap, key: string): string {
    match Inverted(m, key)
    case Some(k) => k
    case None => key
  }

  /** The first key naming the section, as KeyOf gives it. */
  function FirstNaming(m: NameMap, keys: seq<string>, section: string): (r: Option<string>)
    ensures r.None? <==> forall i :: 0 <= i < |keys| ==> !Names(m, keys[i], section)
  {
    if keys == [] then None
    else if Names(m, keys[0], section) then Some(KeyOf(m, keys[0]))
    else
      var r := FirstNaming(m, keys[1..], section);
      assert forall i :: 0 < i < |keys| ==> keys[i] == keys[1..][i - 1];
      r
  }

  lemma {:induction false} FirstNamingAt(m: NameMap, keys: seq<string>, section: string, i: nat)
    requires i < |keys| && Names(m, keys[i], section)
    requires forall j :: 0 <= j < i ==> !Names(m, keys[j], section)
    ensures FirstNaming(m, keys, section) == Some(KeyOf(m, keys[i]))
    decreases i
  {
    if i > 0 {
      FirstNamingAt(m, keys[1..], section, i - 1);
    }
  }

  /**
   * compare_section_keys: nil unless the line is a "=== <name>" line, and
   * nil when no key names it.
   */
  function CompareSectionKeys(m: NameMap, keys: seq<string>, line: string): (r: Option<string>)
    ensures r.None? <==> SectionName(line).None? || forall i :: 0 <= i < |keys| ==> !Names(m, keys[i], SectionName(line).value)
  {
    match SectionName(line)
    case None => None
    case Some(section) => FirstNaming(m, keys, section)
  }

  /**
   * Otherwise compare_section_keys gives the first key, in the given order,
   * that is the name or is mapped to it, as the key the map inverts it to,
   * if any.
   */
  lemma CompareSectionKeysFinds(m: NameMap, keys: seq<string>, line: string, i: nat)
    requires SectionName(line).Some? && i < |keys| && Names(m, keys[i], SectionName(line).value)
    requires forall j :: 0 <= j < i ==> !Names(m, keys[j], SectionName(line).value)
    ensures CompareSectionKeys(m, keys, line) == Some(KeyOf(m, keys[i]))
  {
    FirstNamingAt(m, keys, SectionName(line).value, i);
  }

  /**
   * A bullet list_string writes for a message that starts with a non-space
   * character is a bullet line for at_section_end?, and not a blank one.
   */
  lemma ListStringIsBullet(entry: string)
    requires entry != [] && !IsSpace(entry[0]) && !HasNewline(entry)
    ensures IsBulletLine(ListString(entry) + "\n")
    ensures !IsBlankLine(ListString(entry) + "\n")
  {
    var s := ListString(entry) + "\n";
    assert IsLineStart(s, 0) && s[0] == '*' && s[1] == ' ' && s[2] == entry[0];
    forall i, j | 0 <= i < j <= |s| && IsLineStart(s, i) && EndsLineAt(s, j)
      ensures !AllSpace(s, i, j)
    {
      assert i == 0 && !IsSpace(s[0]);
    }
  }

  /** A heading release_string writes is a line each_line_in_release stops at. */
  lemma ReleaseStringIsRelease(release: Option<string>)
    ensures IsReleaseLine(ReleaseString(release) + "\n")
  {
    assert OccursAt(ReleaseString(release) + "\n", "== ", 0);
  }

  /**
   * The heading section_string writes for a key is read back by
   * compare_section_keys: its name is the key's mapped name, and any key
   * list holding the key finds it. (add passes section_string the mapped
   * name rather than the key, so its own headings map the name once more.)
   */
  lemma SectionStringReadBack(m: NameMap, keys: seq<string>, key: string)
    requires !HasNewline(NameOr(m, key))
    ensures SectionName(SectionString(m, key) + "\n") == Some(NameOr(m, key))
    ensures key in keys ==> CompareSectionKeys(m, keys, SectionString(m, key) + "\n").Some?
  {
    var name := NameOr(m, key);
    var s := SectionString(m, key) + "\n";
    assert OccursAt(s, "=== ", 0);
    assert SectionStart(s, 0) == 0;
    assert forall k :: 4 <= k < 4 + |name| ==> s[k] == name[k - 4] != '\n';
    LineEndStops(s, 4, 4 + |name|);
    assert s[4..4 + |name|] == name;
    assert Names(m, key, name);
    if key in keys {
      var i :| 0 <= i < |keys| && keys[i] == key;
    }
  }

  // ---------------------------------------------------------------------------
  // Lines added to the array.

  /**
   * The lines add inserts: the pending heading, a blank line, a bullet, a
   * section heading.
   */
  predicate IsAddedLine(l: string) {
    l == ReleaseString(Some(PendingLabel)) + "\n" || l == "\n"
    || (|l| >= 2 && l[..2] == "* ") || (|l| >= 4 && l[..4] == "=== ")
  }

  /**
   * `b` is `a` with lines inserted, every inserted line one add writes:
   * the lines of `a` are all in `b`, in their order.
   */
  predicate Extends(a: seq<string>, b: seq<string>)
    decreases |b|
  {
    if b == [] then a == []
    else (IsAddedLine(b[|b| - 1]) && Extends(a, b[..|b| - 1]))
         || (a != [] && a[|a| - 1] == b[|b| - 1] && Extends(a[..|a| - 1], b[..|b| - 1]))
  }

  lemma {:induction false} ExtendsRefl(a: seq<string>)
    ensures Extends(a, a)
    decreases |a|
  {
    if a != [] {
      ExtendsRefl(a[..|a| - 1]);
    }
  }

  lemma ExtendsAdded(a: seq<string>, b: seq<string>, x: string)
    requires Extends(a, b) && IsAddedLine(x)
    ensures Extends(a, b + [x])
  {
    assert (b + [x])[..|b|] == b;
  }

  lemma ExtendsKept(a: seq<string>, b: seq<string>, x: string)
    requires Extends(a, b)
    ensures Extends(a + [x], b + [x])
  {
    assert (b + [x])[..|b|] == b;
    assert (a + [x])[..|a|] == a;
  }

  lemma {:induction false} ExtendsConcat(a1: seq<string>, b1: seq<string>, a2: seq<string>, b2: seq<string>)
    requires Extends(a1, b1) && Extends(a2, b2)
    ensures Extends(a1 + a2, b1 + b2)
    decreases |b2|
  {
    if b2 == [] {
      assert a1 + a2 == a1 && b1 + b2 == b1;
    } else {
      var b2' := b2[..|b2| - 1];
      var x := b2[|b2| - 1];
      assert b1 + b2 == (b1 + b2') + [x];
      if IsAddedLine(x) && Extends(a2, b2') {
        ExtendsConcat(a1, b1, a2, b2');
        ExtendsAdded(a1 + a2, b1 + b2', x);
      } else {
        var a2' := a2[..|a2| - 1];
        ExtendsConcat(a1, b1, a2', b2');
        assert a1 + a2 == (a1 + a2') + [x];
        ExtendsKept(a1 + a2', b1 + b2', x);
      }
    }
  }

  /** Every line of `ls` is one add writes. */
  predicate AllAdded(ls: seq<string>) {
    forall i :: 0 <= i < |ls| ==> IsAddedLine(ls[i])
  }

  lemma {:induction false} ExtendsByAdded(ls: seq<string>)
    requires AllAdded(ls)
    ensures Extends([], ls)
    decreases |ls|
  {
    if ls != [] {
      ExtendsByAdded(ls[..|ls| - 1]);
    }
  }
}
