# Historian in Dafny

Historian keeps a project's `History.txt` up to date from commit messages. This
project models its three text-processing components and proves properties of
them:

- **Historian::CommitMessage** (`commit_message.dfy`) is the decoder of a
  commit line. A line carrying `<T><#?>:<text>`, with `T` one of `! b m M` at
  the start of a line and a letter or digit in the text, has a significance
  (release, patch, minor, major). It may be suppressed by `#`, and it yields
  the text and a cleaned message. Every other line passes through unchanged.
- **Historian::HistoryFile** is the history document as an IO the module
  extends.
  - `history_model.dfy` holds the pending change buckets, the release marker,
    and version numbers with the `next_version` bump.
  - `history_changelog.dfy` holds `changelog`, and the text `rewrite` writes
    and how it reads back.
  - `history_scan.dfy` holds the line recognisers of `parse` (module
    `HistoryLines`) and its three-phase line scanner (module `HistoryScan`).
  - `history_io.dfy` holds the document state. `parse`, `rewrite`,
    `update_history` and the queries appear there as functions from state to
    state, and as the class `HistoryFile`. Its methods update the fields in
    place and are proved to agree with those functions.
  - `history_reread.dfy` and `history_properties.dfy` prove what `parse`
    reads from any text, and what it reads back from the text `rewrite`
    writes.
- **Historian::Parser** is the line array with a cursor, used by the release
  editor.
  - `parser_lines.dfy` holds the strings it builds, the patterns it matches
    and `compare_section_keys`.
  - `parser.dfy` holds the class `Parser` with `scan_for_release`,
    `each_line_in_release`, `at_section_end?`, `status`, `insert` and `add`,
    each proved against a function on the array.
  - `parser_add.dfy` proves where `add` puts the messages: at the end of a
    section that names their key, or in a new section after the walk.
- `text.dfy` holds the shared conventions:
  - Ruby's `\s`, `\w` and `[0-9a-zA-Z]`;
  - multi-line `^` and `$`;
  - `IO#each_line` splitting into lines;
  - `Array#join`.

Conventions of the model:
- The configured key-to-name map and the `add` hash are sequences of pairs,
  kept in Ruby's hash insertion order.
- The date `Time.now.strftime("%Y/%m/%d")` is a parameter.
- The IO is its text: `rewind`/`puts`/`truncate` become the string `rewrite`
  leaves. An exception raised by `parse` is an explicit error result.

Four behaviours of the code are modelled as written:
- `parse` only selects a bucket on `=== Bugfixes`. A `* entry` line before
  any such heading raises, because it appends to `changes[nil]`. So a
  pending major or minor change written by `rewrite` makes the next fresh
  `parse` of that file raise (`HistoryProperties.PendingRoundTrip`).
- `release_log` disagrees with both its doc comment and the spec of the
  class.
  - The doc comment (lib/historian/history_file.rb:87-88) promises the
    changelog of a release just performed, and nil otherwise.
  - The spec (spec/historian/history_file_spec.rb:123, through the matcher
    at spec/support/history_file_matchers.rb:45) compares it with a fixture
    read as `File.read(...).strip` (spec/support/fixture_helper.rb:6), a
    text that never ends with a line feed.
  - The code does neither. `parse` always sets `@release_log` to the joined
    lines of the first release it reads, so after a plain `parse` it is that
    release's text, not nil. After a release, `rewrite` sets it to the
    changelog, but the `parse` that follows overwrites it with the lines of
    the new first release up to the next heading: the changelog, its line
    feed and the blank lines `rewrite` wrote
    (`HistoryProperties.ReleaseUpdate`). That text ends with three line
    feeds (`HistoryProperties.ReleaseLogTrailingBlanks`), so it never equals
    the stripped fixture. The model follows the code.
- `at_section_end?` never moves `search_index`. Its five iterations inspect
  the same line. When the cursor's line is blank and the line before is
  neither blank nor a bullet, the answer is `5` (what `5.times` returns),
  which counts as true (`Parser.SectionEndAt`).
- `each_line_in_release` runs while `index < data.count - 1`, so it never
  yields the last line of the array (`Parser.ReleaseEnd`).

## Model

| member | source | states |
|---|---|---|
| CommitMessages.MatchAt | lib/historian/commit_message.rb:7 | a match of the token regex at a position is a well-formed message (token `! b m M`, remainder holding a letter or digit and no line feed) whose encoding occurs there and ends a line |
| CommitMessages.MatchAtExactly | lib/historian/commit_message.rb:7 | the regex can match at a position in one way only: any well-formed message encoded there that ends a line is the match |
| CommitMessages.MatchFrom | lib/historian/commit_message.rb:7 | None exactly when no line start at or after the starting position matches; otherwise the match at the first line start that does |
| CommitMessages.Parse | lib/historian/commit_message.rb:6-14 | without a match the line is kept whole and not suppressed, and no line start of it matches; with one the message is well formed, is the match at the first matching line start, and its encoding occurs there, ending a line |
| CommitMessages.DecodeEncode | lib/historian/commit_message.rb:6-14 | decoding the text of a well-formed message gives that message back |
| CommitMessages.EncodeDecode | lib/historian/commit_message.rb:6-14 | on a single line, a decoded token line is exactly token, optional `#`, colon and remainder |
| CommitMessages.SingleLineDecode | lib/historian/commit_message.rb:7 | a single line has a token exactly when it is the encoding of some well-formed message |
| CommitMessages.SignificanceOf | lib/historian/commit_message.rb:16-23 | `b` is patch, `m` minor, `M` major, `!` release, and it is nil exactly when no token was matched |
| CommitMessages.Suppressed | lib/historian/commit_message.rb:25-27 | only a line whose token matched can be suppressed |
| CommitMessages.ToS | lib/historian/commit_message.rb:29-31 | a line without a significance is returned unchanged; otherwise the remainder, which holds a letter or digit and no line feed |
| CommitMessages.StripLeadingNonWord | lib/historian/commit_message.rb:34 | the result is a suffix of its input; every dropped character is a non-word character, and the result starts with a word character unless it is empty |
| CommitMessages.ToMessageS | lib/historian/commit_message.rb:33-35 | nil exactly without a significance; otherwise a non-empty suffix of `to_s` that starts with a word character |
| HistoryModel.Changes.Append | lib/historian/history_file.rb:118 | the entry is appended to its own bucket and every other bucket is unchanged |
| HistoryModel.Changes.Extend | lib/historian/history_file.rb:165 | the entries are appended in order to their bucket and every other bucket is unchanged |
| HistoryModel.CurrentVersionString | lib/historian/history_file.rb:63-66 | "0.0.0" when no version was read, the dotted version otherwise |
| HistoryModel.FormatNat | lib/historian/history_file.rb:84 | `%d` writes a non-empty run of digits |
| HistoryModel.DecimalValueOfFormat | lib/historian/history_file.rb:74-84 | `to_i` of what `%d` writes is the number |
| HistoryModel.ValueOfFormatVersion | lib/historian/history_file.rb:74-84 | reading back a formatted version gives the version |
| HistoryModel.Bump | lib/historian/history_file.rb:75-83 | a major change bumps major and zeroes minor and patch; otherwise a minor change bumps minor and zeroes patch; otherwise patch is bumped, also with nothing pending; the result is always a later version |
| HistoryModel.NextVersionText | lib/historian/history_file.rb:72-85 | next_version is a well-formed version whose value is the bump of the current version |
| HistoryChangelog.ChangelogText | lib/historian/history_file.rb:28-46 | changelog is "" exactly when every bucket is empty, whatever the release; otherwise it starts with "== In Git" or "== <next>[ <name>] - <date>" |
| HistoryChangelog.ChangelogReadsBack | lib/historian/history_file.rb:31-45 | changelog plus a line feed reads back as the heading line, then for major, minor and patch in that order and only when non-empty a blank line, "=== <header>" and one "* <entry>" line per entry in insertion order |
| HistoryChangelog.JoinTerminated | lib/historian/history_file.rb:45 | joining with "\n" and adding one is writing each element on its own line |
| HistoryChangelog.PutsText | lib/historian/history_file.rb:128 | puts always leaves a line feed at the end |
| HistoryChangelog.PutsChangelog | lib/historian/history_file.rb:128 | a non-empty changelog never ends with a line feed, so puts adds exactly one |
| HistoryChangelog.RenderReadsBack | lib/historian/history_file.rb:127-131 | the rewritten text reads back as the changelog's lines, two blank lines and the buffer, each line ended by a line feed |
| HistoryChangelog.BufferPut | lib/historian/history_file.rb:130 | `puts @buffer` writes whole lines, and a single line feed for an empty buffer |
| HistoryLines.SplitDigits | lib/historian/history_file.rb:154 | the greedy `[0-9]+` run: the input is split into a digit run and a rest that does not start with a digit |
| HistoryLines.ReleaseHeading | lib/historian/history_file.rb:154 | a recognised heading carries a well-formed version and a rest without a line feed |
| HistoryLines.ReleaseHeadingOf | lib/historian/history_file.rb:154 | any "== x.y.z" line whose version is followed by a non-digit is a heading with that version |
| HistoryLines.EntryOf | lib/historian/history_file.rb:164 | an entry is non-empty, has no line feed, follows "* " at the start of the line and reaches the end of the line |
| HistoryLines.EntryOfBullet | lib/historian/history_file.rb:164 | a bullet as changelog writes it reads back as its entry |
| HistoryLines.NameOf | lib/historian/history_file.rb:159-161 | a name is found exactly when a space comes before a " - yyyy/mm/dd" suffix; it runs from just after the first space of the rest to the last such suffix, as the leftmost, greedy match picks |
| HistoryLines.NameOfNamed | lib/historian/history_file.rb:159-161 | a heading suffix written for a named release reads back as that name |
| HistoryLines.NameOfAnonymous | lib/historian/history_file.rb:159-161 | the suffix of an unnamed release gives no name |
| HistoryLines.KindOf | lib/historian/history_file.rb:152-166 | a line is a release line exactly when it matches the heading regex, with that heading's version |
| HistoryScan.Step | lib/historian/history_file.rb:151-177 | one line of parse raises only for an entry while gathering with no bucket selected; otherwise it keeps the buffer or appends the line to it |
| HistoryScan.ScanAppend | lib/historian/history_file.rb:151-177 | scanning two pieces in turn is scanning their concatenation |
| HistoryScan.FindHeading | lib/historian/history_file.rb:154 | the first release heading, or the number of lines when there is none |
| HistoryScan.ScanRemainder | lib/historian/history_file.rb:174-176 | after the second heading every line goes to the buffer and nothing else changes |
| HistoryScan.ScanPrevious | lib/historian/history_file.rb:167-173 | while gathering the previous release, every line is buffered and the lines before the next heading are logged |
| HistoryScan.ScanBeforeHeading | lib/historian/history_file.rb:152-166 | before the first heading nothing is buffered or logged and version and name stay |
| HistoryScan.ScanFromHeading | lib/historian/history_file.rb:154-173 | from a heading on, the scan cannot fail: it buffers every line, logs the lines up to the next heading, takes the heading's version and its name when it has one |
| HistoryScan.ScanFromStart | lib/historian/history_file.rb:145-180 | the whole scan fails exactly when the part before the first heading fails; the buffer is everything from that heading, and the log is that heading up to the next |
| HistoryIO.ParseOutcome | lib/historian/history_file.rb:145-180 | parse keeps the text and the release marker, and keeps a well-formed version well formed |
| HistoryIO.Prepare | lib/historian/history_file.rb:58 | `parse unless parsed?`: a parsed state is left as it is |
| HistoryIO.RewriteReparse | lib/historian/history_file.rb:126-139 | a release's rewrite leaves the written text; if the re-parse raises, the release and the changes are kept and buffer and release log emptied; otherwise both are forgotten and the state is parsed |
| HistoryIO.RewriteOutcome | lib/historian/history_file.rb:126-139 | rewrite keeps the version well formed |
| HistoryIO.UpdateOutcome | lib/historian/history_file.rb:114-121 | update_history keeps the version well formed |
| HistoryIO.HistoryFile.constructor | lib/historian/history_file.rb:48-54 | a freshly extended IO: its text, empty buckets, nothing parsed |
| HistoryIO.HistoryFile.ParseLine | lib/historian/history_file.rb:152-176 | one pass of parse's block updates the fields as one scan step does, and changes nothing when it raises |
| HistoryIO.HistoryFile.ReadLines | lib/historian/history_file.rb:146-179 | the loop over the lines leaves the fields as the scan of those lines does |
| HistoryIO.HistoryFile.Parse | lib/historian/history_file.rb:145-180 | the fields after parse are ParseOutcome of the fields before |
| HistoryIO.HistoryFile.EnsureParsed | lib/historian/history_file.rb:141-143 | `parse unless parsed?` on the fields |
| HistoryIO.HistoryFile.Rewrite | lib/historian/history_file.rb:126-139 | the fields after rewrite are RewriteOutcome of the fields before |
| HistoryIO.HistoryFile.Released | lib/historian/history_file.rb:136-137 | after a release nothing is pending and no release is marked; nothing else changes |
| HistoryIO.HistoryFile.UpdateHistory | lib/historian/history_file.rb:114-121 | the fields after update_history are UpdateOutcome of the fields before |
| HistoryIO.HistoryFile.AppendAll | lib/historian/history_file.rb:117-119 | every message is appended to its bucket in order; nothing else changes |
| HistoryIO.HistoryFile.HasPendingChanges | lib/historian/history_file.rb:57-60 | changes? after `parse unless parsed?`: whether a bucket holds an entry |
| HistoryIO.HistoryFile.CurrentVersion | lib/historian/history_file.rb:63-66 | current_version after `parse unless parsed?` |
| HistoryIO.HistoryFile.NextVersion | lib/historian/history_file.rb:72-85 | next_version after `parse unless parsed?` |
| HistoryIO.HistoryFile.ReleaseLog | lib/historian/history_file.rb:89-92 | release_log after `parse unless parsed?` |
| HistoryIO.HistoryFile.CurrentReleaseName | lib/historian/history_file.rb:97-100 | current_release_name after `parse unless parsed?` |
| HistoryIO.HistoryFile.Changelog | lib/historian/history_file.rb:28-46 | changelog after the parse its changes? does |
| HistoryProperties.ScanPending | lib/historian/history_file.rb:162-165 | before the first heading, parse raises exactly when an entry comes before any "=== Bugfixes", and otherwise appends every entry to the patch bucket |
| HistoryProperties.ScanReadsFirstRelease | lib/historian/history_file.rb:145-180 | the scan of all lines, in terms of the first heading k and the next one k2: error, buckets, buffer, version, name and log |
| HistoryProperties.ParseReadsFirstRelease | lib/historian/history_file.rb:145-180 | parse raises exactly when an entry precedes "=== Bugfixes" before the first heading; otherwise pending entries go to patch, the buffer is every line from the first heading, version and name are that heading's, and the release log is the lines up to the next heading |
| HistoryProperties.FreshParseValid | lib/historian/history_file.rb:145-180 | a successful parse of a fresh file gives a well-formed state: the buffer starts with the heading of the current version, or is empty and no version was read |
| HistoryProperties.NoReleaseYet | lib/historian/history_file.rb:63-66 | without any heading, current_version is "0.0.0" and next_version is 0.0.1 unless a major or minor change is pending |
| HistoryProperties.EmptyHistory | lib/historian/history_file.rb:72-85 | an empty file: current_version "0.0.0", next_version "0.0.1" |
| HistoryProperties.AppendEntriesGet | lib/historian/history_file.rb:117-119 | appending the pairs extends each bucket by exactly its own messages, in order |
| HistoryProperties.UpdateAppends | lib/historian/history_file.rb:114-121 | update_history without a release appends each bucket's messages and nothing else, writes the changelog, blank lines and buffer, and keeps buffer, version, name and the well-formedness invariant |
| HistoryProperties.HeadingSingleLine | lib/historian/history_file.rb:33-37 | the heading changelog writes is one line |
| HistoryProperties.RenderedLines | lib/historian/history_file.rb:127-131 | the written text reads back as changelog block, blank lines and buffer, and the first heading after the first line is the buffer's first line |
| HistoryProperties.ReleaseUpdate | lib/historian/history_file.rb:132-138 | after update_history with a release, the new version is next_version, the name is the given one (the old one for an unnamed release), the release log is the changelog and its blank lines, nothing is pending, and the invariant holds |
| HistoryProperties.ReleaseLogTrailingBlanks | lib/historian/history_file.rb:126-139 | after update_history with a release, the release log ends with three line feeds, so it is never a stripped text |
| HistoryProperties.AfterRelease | lib/historian/history_file.rb:132-138 | after a release, changes? is false and changelog is "", current_version is the version just written, the release name is the given one, and next_version bumps its patch |
| HistoryProperties.NothingPending | lib/historian/history_file.rb:28-29 | with every bucket empty, changelog is "" for any release, and next_version only bumps the patch number |
| HistoryProperties.RenderedHeaded | lib/historian/history_file.rb:126-135 | the text a release's rewrite writes starts with a line parse reads as the new release, with its version and name, and the lines up to the next heading join into the changelog and its blank lines |
| HistoryProperties.ParseReleased | lib/historian/history_file.rb:135 | the parse after a release's rewrite reads the new heading as the current release |
| HistoryProperties.ParseHeadedLines | lib/historian/history_file.rb:145-180 | text starting with a release heading parses without error, keeps every line and logs the lines up to the next heading |
| HistoryProperties.PendingScan | lib/historian/history_file.rb:162-165 | a written pending changelog with only bugfixes reads back as exactly those bugfixes; a major or minor entry makes parse raise |
| HistoryProperties.ParseAfterPending | lib/historian/history_file.rb:152-166 | lines without a heading followed by a heading: the first part gives the pending entries, the rest is the buffer |
| HistoryProperties.PendingLines | lib/historian/history_file.rb:127-131 | a changelog written without a release reads back as a part without headings followed by the buffer |
| HistoryProperties.PendingRoundTrip | lib/historian/history_file.rb:162-165 | a file rewritten with only bugfixes pending parses back to those bugfixes, the same version and the buffer as puts wrote it; a pending major or minor change makes that parse raise |
| HistoryReread.KindOfBullet | lib/historian/history_file.rb:164 | a written bullet is an entry line for its entry |
| HistoryReread.KindOfInGit | lib/historian/history_file.rb:154 | "== In Git" is not a release heading |
| HistoryReread.KindOfSectionHeader | lib/historian/history_file.rb:162 | "=== Bugfixes" selects the patch bucket; the other section headers are ordinary lines |
| HistoryReread.KindOfReleaseHeading | lib/historian/history_file.rb:154-161 | a release heading written by changelog reads back with its version and, for a named release, its name |
| HistoryReread.ScanEntries | lib/historian/history_file.rb:164-165 | entry lines are appended to the selected bucket; with none selected the first raises |
| HistoryReread.ScanSection | lib/historian/history_file.rb:162-165 | a written Bugfixes section is read into the patch bucket; a major or minor section raises at its first entry |
| HistoryReread.ScanPendingBlock | lib/historian/history_file.rb:162-165 | a whole pending changelog read from the start of parse: bugfixes only are recovered, anything else raises |
| HistoryReread.WrittenLines | lib/historian/history_file.rb:127-131 | the rewritten text reads back as the changelog's lines, two blank lines and the buffer |
| HistoryReread.WrittenLinesEmpty | lib/historian/history_file.rb:127-131 | with nothing pending, rewrite writes three blank lines before the buffer |
| HistoryReread.HeadingWritten | lib/historian/history_file.rb:130 | a buffered heading line stays a heading with the same version once puts writes it, with or without its line feed |
| ParserLines.Lookup | lib/historian/parser.rb:24 | `map[key]` is present exactly when some pair has that key, and it is the value of such a pair |
| ParserLines.Inverted | lib/historian/parser.rb:38 | `map.invert[value]` is present exactly when some pair holds that value |
| ParserLines.InvertedAt | lib/historian/parser.rb:38 | `map.invert[value]` is the key of the last pair holding that value |
| ParserLines.Delete | lib/historian/parser.rb:112 | Hash#delete finds a value exactly when the key is present, and leaves the hash unchanged otherwise |
| ParserLines.DeleteAt | lib/historian/parser.rb:112 | Hash#delete returns the key's value and removes only that pair, keeping the others in order |
| ParserLines.DeleteShrinks | lib/historian/parser.rb:112 | deleting only removes pairs |
| ParserLines.SectionStart | lib/historian/parser.rb:34 | the first line start holding "=== " |
| ParserLines.SectionName | lib/historian/parser.rb:34-35 | the `=== (.*)$` capture exists exactly when some line starts with "=== ", and it holds no line feed |
| ParserLines.FirstNaming | lib/historian/parser.rb:36-41 | nil exactly when no key equals the name or maps to it |
| ParserLines.FirstNamingAt | lib/historian/parser.rb:36-41 | the first key naming the section is found, as its inverted key |
| ParserLines.CompareSectionKeys | lib/historian/parser.rb:32-42 | nil exactly when the line is no section heading or no key names it |
| ParserLines.CompareSectionKeysFinds | lib/historian/parser.rb:32-42 | otherwise the first naming key in the given order, inverted through the map when it can be |
| ParserLines.SectionStringReadBack | lib/historian/parser.rb:23-26 | a heading section_string writes reads back as the mapped name, and compare_section_keys finds it for any key list holding the key |
| ParserLines.ListStringIsBullet | lib/historian/parser.rb:28-30 | a bullet list_string writes for a single-line message starting with a non-space is a bullet line and not a blank line for at_section_end? |
| ParserLines.ReleaseStringIsRelease | lib/historian/parser.rb:19-21 | a heading release_string writes is a line where each_line_in_release stops |
| ParserLines.ExtendsConcat | lib/historian/parser.rb:92-95 | inserting lines into two pieces is inserting lines into their concatenation |
| Parser.FirstContaining | lib/historian/parser.rb:56 | find_index: the first line containing the needle, or the number of lines |
| Parser.FindFromIs | lib/historian/parser.rb:56 | any index with those properties is the one found |
| Parser.ReleaseEnd | lib/historian/parser.rb:65-77 | where each_line_in_release stops: no line before it starts with "== ", it is a "== " line unless it is the last line, and the last line is never passed |
| Parser.TrimTrailing | lib/historian/parser.rb:86-88 | the popped lines are exactly the trailing lines matching `^\s*$`: the result is a prefix, its last line does not match, and every dropped line does |
| Parser.HeadingNotBlankish | lib/historian/parser.rb:86 | a line read from the IO that contains "== " is never popped as blank |
| Parser.StatusNilExactly | lib/historian/parser.rb:79-90 | over lines read from the IO, status is nil exactly when no line contains "== <release>", and otherwise starts with that heading line |
| Parser.InsertAt | lib/historian/parser.rb:93 | Array#insert: the lines before the cursor stay, the new line is at it, the lines from it on shift down by one in order |
| Parser.BulletLines | lib/historian/parser.rb:113 | one "* <message>\n" line per message, in order |
| Parser.AdvancedInsert | lib/historian/parser.rb:92-95 | inserting added lines at the cursor keeps every original line in order |
| Parser.AdvancedSkip | lib/historian/parser.rb:75 | stepping the cursor over an original line keeps the correspondence |
| Parser.AdvancedTrans | lib/historian/parser.rb:97-129 | two stages of insertion compose |
| Parser.AdvancedExtends | lib/historian/parser.rb:97-129 | over the whole array, the result holds every original line in order among added ones |
| Parser.PendingFirstPrefix | lib/historian/parser.rb:99-106 | the pending release stays the first release when lines are added after it |
| Parser.Parser.constructor | lib/historian/parser.rb:5-9 | the lines of the IO, the cursor on the first |
| Parser.Parser.PrepareToScan | lib/historian/parser.rb:11-13 | the cursor goes back to the first line; the lines are unchanged |
| Parser.Parser.AtSectionEnd | lib/historian/parser.rb:44-52 | true exactly when the cursor's line matches `^\s+$` and the line before it (the last line for cursor 0) does not |
| Parser.Parser.ScanForRelease | lib/historian/parser.rb:54-63 | the cursor goes to the first line containing "== <release>" and that line is returned; without one the cursor goes to the line count and nil is returned |
| Parser.Parser.EachLineInRelease | lib/historian/parser.rb:65-77 | the lines from the cursor up to the first "== " line, in order, where the cursor stays; the last line is never yielded |
| Parser.Parser.Status | lib/historian/parser.rb:79-90 | status is the heading and the release's lines, trailing blank lines removed, joined; nil when nothing is left; the lines are unchanged; the cursor ends where the walk over the release stopped, or at one past the end when no heading is found |
| Parser.Parser.PopBlankTail | lib/historian/parser.rb:86-88 | the pop loop leaves TrimTrailing of the buffer |
| Parser.Parser.Insert | lib/historian/parser.rb:92-95 | the string and a line feed go in at the cursor, and the cursor moves forward by one |
| Parser.Parser.InsertBullets | lib/historian/parser.rb:113 | one bullet per message goes in at the cursor, in order, and the cursor moves past them |
| Parser.PendingStage | lib/historian/parser.rb:98-106 | after the start of add, the first "== " line above the cursor is the pending release |
| Parser.Parser.EnsurePendingHeading | lib/historian/parser.rb:98-106 | if the first "== " line is not "== In Git", "== In Git" and an empty line go in at its position (or at the end); the cursor ends below the pending heading, as PendingStage says |
| Parser.Parser.WalkLine | lib/historian/parser.rb:111-117 | with a key pending at a section end, the key's messages are deleted from the hash and go in as bullets, and the key is cleared; with no key pending, the line is compared with the hash's keys; otherwise nothing changes |
| Parser.Step | lib/historian/parser.rb:110-118 | one pass of add's block and the cursor step: the cursor moves forward, the lines before it are kept, no line is lost, and the lines still to walk drop by one |
| Parser.Walk | lib/historian/parser.rb:65-77 | the walk in add stops on a "== " line or at the last line |
| Parser.Parser.WalkStep | lib/historian/parser.rb:110-118 | one step of the walk is Step on the array, cursor, pending key and hash; it only inserts added lines and keeps the hash to pairs it had |
| Parser.Parser.WalkRelease | lib/historian/parser.rb:108-118 | the array, cursor and hash end as Walk from the cursor with no key pending; only bullets were inserted |
| Parser.Parser.AppendSections | lib/historian/parser.rb:120-127 | each key left gets its section at the cursor, in the hash's order |
| Parser.Parser.InsertSection | lib/historian/parser.rb:121-126 | "=== <mapped name or key>", one bullet per message, and an empty line |
| Parser.Parser.Add | lib/historian/parser.rb:97-129 | add returns the mutated data, which with the hash it leaves is AddResult: the pending heading, the walk, then the new sections at the cursor; every original line is kept in order among added lines; the first "== " line is the pending release; the hash left holds only pairs it was given; the cursor ends after the new sections, past where the walk stopped |
| Parser.AddComposes | lib/historian/parser.rb:97-129 | the three stages of add together only add lines and keep the pending release first |
| Parser.PendingFound | lib/historian/parser.rb:100-102 | a pending heading found first: add goes on below it |
| Parser.PendingInserted | lib/historian/parser.rb:103-106 | the inserted pending heading and empty line are the first release |
| Parser.NewSectionsAdded | lib/historian/parser.rb:120-127 | every line of the new sections is one add writes |
| ParserAdd.WalkKeepsPrefix | lib/historian/parser.rb:108-118 | the walk keeps the lines before its cursor and never moves the cursor back |
| ParserAdd.WalkPending | lib/historian/parser.rb:111-114 | with a key pending, lines that are not section ends pass without change |
| ParserAdd.WalkUnmatched | lib/historian/parser.rb:115-116 | with no key pending, lines that name no key pass without change |
| ParserAdd.WalkPlacesBullets | lib/historian/parser.rb:110-118 | a line that names a key, reached with no key pending, gets that key's bullets (one empty bullet for a key missing from the hash) directly before the first section end after it, when no "== " line comes first and that end is not the last line |
| ParserAdd.WalkAtSectionEnd | lib/historian/parser.rb:111-114 | at a section end with a key pending, the key's bullets go in at the cursor and the rest of the walk leaves them and the lines above in place |
| ParserAdd.DeleteTakesOne | lib/historian/parser.rb:112 | deleting a present key returns the messages of one pair and keeps every other pair |
| ParserAdd.StepWrites | lib/historian/parser.rb:111-114 | a step writes the messages of the pair it deletes; every pair stays in the hash or has its messages written |
| ParserAdd.WalkWrites | lib/historian/parser.rb:108-118 | over the walk, every pair of the hash stays in it or has its messages written as bullets |
| ParserAdd.NewSectionWrites | lib/historian/parser.rb:121-126 | a new section holds "=== <mapped name>" and a bullet per message |
| ParserAdd.NewSectionsWrite | lib/historian/parser.rb:120-127 | the new sections hold a heading and the bullets of every pair left |
| ParserAdd.AddWritesEveryMessage | lib/historian/parser.rb:97-129 | every message of the hash is a bullet line of add's result, and every key left after the walk has a section heading in it |
| ParserAdd.AddPlacesBullets | lib/historian/parser.rb:97-129 | the first section of the pending release that names a key gets that key's bullets directly before its section end, with the lines above unchanged |
| Text.Lines | lib/historian/parser.rb:7 | `readlines` gives physical lines, each but the last ending with a line feed |
| Text.LinesConcat | lib/historian/parser.rb:7 | joining the lines gives the text back |
| Text.LinesAppend | lib/historian/history_file.rb:151 | splitting text at a line boundary splits its lines there |

## Left out

- lib/historian/git.rb, lib/historian/cli.rb, lib/historian/commandline.rb and lib/historian/configuration.rb are not part of this model. They are git hooks, the command line and dotfile loading. The key-to-name map they supply is a parameter of `Parser`.
- IO mechanics: `rewind`, `puts`, `truncate` and `pos` are modelled as the string the IO holds afterwards. The lazy `parsed?` flag is kept as a field.
- `Time.now`: the date is a parameter of `changelog`, `rewrite` and `update_history`.
- Parser.Parser.ScanForRelease: `scan_for_release` interpolates the release into a regular expression, where "." matches any character. The model takes the needle literally, as containment of "== <release>".
- ParserLines.CompareSectionKeys: the pattern is built from `section_string '(.*)'`. A configured map that gives the literal key "(.*)" a name would change that pattern; such a key is not modelled.
- Parser.Parser.Insert: `Array#insert` past the end pads with nils. The model requires the cursor to be within the array, which every call from `add` satisfies.
- Parser.Parser.Add: the hash values are a single message or a list of messages (`[lines].flatten`); deeper nesting is not modelled.
- ParserAdd.AddPlacesBullets: stated for the first section of the pending release that names a key. For a later section, ParserAdd.WalkPlacesBullets states the placement from the line where the walk reaches it with no key pending.
- Parser.Parser.WalkLine: `each_line_in_release` with `add`'s block is modelled as the walk itself. Its generic block is modelled only for `status`'s collecting block (`EachLineInRelease`).
- Parser.Parser.AtSectionEnd: the result is whether the answer is true. The values `nil`, `false`, `true` and `5` are not told apart.
- HistoryIO.ParseResult: when `parse` raises, `@release_log` is left as the empty array `[]`. The model keeps it as the empty string.
- HistoryIO.HistoryFile.UpdateHistory: the hash is a sequence of (significance, message) pairs with the `:release` value passed apart. A significance key other than major, minor or patch is not modelled.
- HistoryProperties.ReleaseUpdate: stated for a parsed, well-formed file whose pending buckets are non-empty after the update. A release with nothing pending writes a changelog of "" and is not covered by this lemma.
- HistoryProperties.PendingRoundTrip and HistoryProperties.ReleaseUpdate: entries must be non-empty single lines so that they read back as entries.
