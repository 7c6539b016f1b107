// The document model of Historian::HistoryFile: pending change buckets, the
// release marker given to update_history, version numbers as the heading regex
// captures them, and the semantic-version bump of next_version.

module HistoryModel {
  import opened Wrappers
  import opened Text

  /** The significance keys of the pending buckets (`:major`, `:minor`, `:patch`). */
  datatype Bucket = Major | Minor | Patch

  /** The `changes` hash: one ordered list of entry texts per significance. */
  datatype Changes = Changes(major: seq<string>, minor: seq<string>, patch: seq<string>)
  {
    function Get(b: Bucket): seq<string> {
      match b
      case Major => major
      case Minor => minor
      case Patch => patch
    }

    /** `changes[b] << entry` */
    function Append(b: Bucket, entry: string): (r: Changes)
      ensures r.Get(b) == Get(b) + [entry]
      ensures forall other :: other != b ==> r.Get(other) == Get(other)
    {
      match b
      case Major => this.(major := major + [entry])
      case Minor => this.(minor := minor + [entry])
      case Patch => this.(patch := patch + [entry])
    }

    /** `changes[b] << entry` for each entry in turn. */
    function Extend(b: Bucket, es: seq<string>): (r: Changes)
      ensures r.Get(b) == Get(b) + es
      ensures forall other :: other != b ==> r.Get(other) == Get(other)
      decreases |es|
    {
      if es == [] then this
      else
        var r := Append(b, es[0]).Extend(b, es[1..]);
        assert Get(b) + [es[0]] + es[1..] == Get(b) + es;
        r
    }
  }

  /** SECTION_HEADERS: the title of each section of a changelog. */
  function SectionTitle(b: Bucket): string {
    match b
    case Major => "Major Changes"
    case Minor => "Minor Changes"
    case Patch => "Bugfixes"
  }

  /** What `@changes ||= {...}` starts from, and what a release resets to. */
  const NoChanges := Changes([], [], [])

  /** changes?: whether some bucket holds an entry. */
  predicate HasChanges(c: Changes) {
    c.major != [] || c.minor != [] || c.patch != []
  }

  /** The `:release` value: absent, `true` (an unnamed release), or a release name. */
  datatype Release = NoRelease | Anonymous | Named(name: string)

  /** A version as `([0-9]+\.[0-9]+\.[0-9]+)` captures it: three digit runs, kept as text. */
  datatype VersionText = VersionText(major: string, minor: string, patch: string)

  predicate IsVersionText(v: VersionText) {
    v.major != [] && AllDigits(v.major) && v.minor != [] && AllDigits(v.minor)
    && v.patch != [] && AllDigits(v.patch)
  }

  /** `@current_version`, when set, is always a captured version. */
  predicate ValidVersion(cv: Option<VersionText>) {
    cv.Some? ==> IsVersionText(cv.value)
  }

  function VersionString(v: VersionText): string {
    v.major + "." + v.minor + "." + v.patch
  }

  /** current_version: the captured text, or "0.0.0" before any release heading was parsed. */
  function CurrentVersionString(cv: Option<VersionText>): (r: string)
    ensures cv.None? ==> r == "0.0.0"
    ensures cv.Some? ==> r == VersionString(cv.value)
  {
    match cv
    case None => "0.0.0"
    case Some(v) => VersionString(v)
  }

  datatype Version = Version(major: nat, minor: nat, patch: nat)

  /** Strict lexicographic order on versions. */
  predicate VersionLess(a: Version, b: Version) {
    a.major < b.major
    || (a.major == b.major && a.minor < b.minor)
    || (a.major == b.major && a.minor == b.minor && a.patch < b.patch)
  }

  function DigitValue(c: char): nat
    requires IsDigit(c)
  {
    c as int - '0' as int
  }

  function DigitChar(d: nat): (c: char)
    requires d < 10
    ensures IsDigit(c) && DigitValue(c) == d
  {
    ('0' as int + d) as char
  }

  /** String#to_i on a run of decimal digits. */
  function DecimalValue(s: string): nat
    requires AllDigits(s)
  {
    if s == [] then 0 else 10 * DecimalValue(s[..|s| - 1]) + DigitValue(s[|s| - 1])
  }

  /** `"%d"` of a natural number. */
  function FormatNat(n: nat): (s: string)
    ensures s != [] && AllDigits(s)
  {
    if n < 10 then [DigitChar(n)] else FormatNat(n / 10) + [DigitChar(n % 10)]
  }

  /** Reading back a formatted number gives the number. */
  lemma {:induction false} DecimalValueOfFormat(n: nat)
    ensures DecimalValue(FormatNat(n)) == n
  {
    if n >= 10 {
      var s := FormatNat(n);
      assert s[..|s| - 1] == FormatNat(n / 10);
      DecimalValueOfFormat(n / 10);
    }
  }

  /** `current_version.split(".").collect { |n| n.to_i }` */
  function ValueOf(v: VersionText): Version
    requires IsVersionText(v)
  {
    Version(DecimalValue(v.major), DecimalValue(v.minor), DecimalValue(v.patch))
  }

  function CurrentVersionValue(cv: Option<VersionText>): Version
    requires ValidVersion(cv)
  {
    match cv
    case None => Version(0, 0, 0)
    case Some(v) => ValueOf(v)
  }

  /** The three fields of `"%d.%d.%d"`. */
  function FormatVersion(v: Version): (t: VersionText)
    ensures IsVersionText(t)
  {
    VersionText(FormatNat(v.major), FormatNat(v.minor), FormatNat(v.patch))
  }

  lemma ValueOfFormatVersion(v: Version)
    ensures ValueOf(FormatVersion(v)) == v
  {
    DecimalValueOfFormat(v.major);
    DecimalValueOfFormat(v.minor);
    DecimalValueOfFormat(v.patch);
  }

  /**
   * next_version's arithmetic: a pending major change bumps the major number
   * and zeroes the others; otherwise a pending minor change bumps the minor
   * number and zeroes the patch; otherwise the patch number is bumped, also
   * when nothing is pending. The result is always a later version.
   */
  function Bump(v: Version, c: Changes): (r: Version)
    ensures c.major != [] ==> r == Version(v.major + 1, 0, 0)
    ensures c.major == [] && c.minor != [] ==> r == Version(v.major, v.minor + 1, 0)
    ensures c.major == [] && c.minor == [] ==> r == Version(v.major, v.minor, v.patch + 1)
    ensures VersionLess(v, r)
  {
    if c.major != [] then Version(v.major + 1, 0, 0)
    else if c.minor != [] then Version(v.major, v.minor + 1, 0)
    else Version(v.major, v.minor, v.patch + 1)
  }

  /** next_version as a string: the bumped current version, "%d.%d.%d". */
  function NextVersionText(cv: Option<VersionText>, c: Changes): (r: VersionText)
    requires ValidVersion(cv)
    ensures IsVersionText(r) && ValueOf(r) == Bump(CurrentVersionValue(cv), c)
  {
    ValueOfFormatVersion(Bump(CurrentVersionValue(cv), c));
    FormatVersion(Bump(CurrentVersionValue(cv), c))
  }
}
