# Release record: version lookup, release queries and coordinator default

A Dafny model of the `Release` record of a release-tracking web application
(`app/models/release.rb`). A release has a date, a status, a coordinator, notes,
and one version string for each of ten tracked apps. The model covers:

- **Version resolution** (`Release.version(app, release)`). A release that has
  its own version for an app returns it. Otherwise the lookup scans every
  release dated on or before it that has a non-empty value for the app. It ranks
  those values by their `.`-separated segments read as integers and returns the
  greatest one. It returns `"-"` when there is none.
- **Release queries.** `last_release` is the latest release dated before today.
  `next_release` is the earliest release dated today or later.
- **Validation and the save hook.** A release needs a date. Before it is saved,
  a blank coordinator becomes `"Russell Craxford"`.
- **The app list** (`Release.repositories`).

The releases table is a sequence of `Row` values. Today's date is an argument.
Dates are day numbers. A NULL column is `None`; a NULL version column is an app
missing from the row's `versions` map.

Files:

- `wrappers.dfy`: `Option`, standing for Ruby's `nil`.
- `ruby_text.dfy` (module `RubyText`): the Ruby string behaviour the record
  depends on. This is ActiveSupport's `blank?`/`present?`, `String#split` with a
  one-character separator (trailing empty fields dropped), and `String#to_i`.
  `to_i` skips leading white space, reads an optional sign, an optional `0d`
  prefix and digits (single underscores allowed between digits), and reads
  anything else as 0.
- `version_key.dfy` (module `VersionKey`): the version key, Ruby's `Array#<=>`
  on integer lists, `sort_by` with a key block, and `last || '-'`.
- `releases.dfy` (module `Releases`): apps, rows, `version`, `last_release`,
  `next_release` and `repositories`.
- `release_record.dfy` (module `ReleaseRecord`): the in-memory record as a
  class. Its attributes are fields that are assigned in place; it has the
  `before_save` hook `set_coordinator` and the date validation.

A non-numeric version segment is read the way the code reads it. The code
uses `to_i`, which never raises and reads a segment that does not start with a
sign or a digit as 0.

## Model

| member | source | states |
|---|---|---|
| `Releases.Version` | app/models/release.rb:25-34 | The result is nil exactly when the release is nil |
| `Releases.VersionOfNil` | app/models/release.rb:26 | A nil release gives nil and no lookup |
| `Releases.VersionOwnSlot` | app/models/release.rb:27-28 | A release whose own version for the app is present gets that version back unchanged |
| `Releases.VersionFallbackIsGreatest` | app/models/release.rb:29-31 | If the release's own version is blank and some row qualifies, the result is the version of a row that is dated on or before the release and has a non-empty value for the app; no such row has a version with a greater key |
| `Releases.VersionFallbackDash` | app/models/release.rb:31 | If the release's own version is blank and no row qualifies, the result is "-" |
| `Releases.VersionFromEarlierRelease` | spec/models/releases_spec.rb:23-27 | With yesterday's release at version v and tomorrow's without one, tomorrow's version is v |
| `Releases.Candidates` | app/models/release.rb:31 | A value is plucked exactly when some row has it for the app, it is not the empty string, and the row's date is on or before the given date (NULL never qualifies) |
| `Releases.LastRelease` | app/models/release.rb:36-38 | Nil exactly when no row is dated before today; otherwise a row of the table dated before today whose date is at least every other such row's date |
| `Releases.NextRelease` | app/models/release.rb:40-42 | Nil exactly when no row is dated today or later; otherwise a row of the table so dated whose date is at most every other such row's date |
| `Releases.LastReleaseIsYesterdays` | spec/models/releases_spec.rb:39-42 | With only yesterday's release, it is the last release and there is no next one |
| `Releases.NextReleaseIsTomorrows` | spec/models/releases_spec.rb:44-47 | With only tomorrow's release, it is the next release and there is no last one |
| `Releases.LastAndNextCoverDatedRows` | app/models/release.rb:36-42 | If any row is dated, one of the two queries finds a row, and the last release is strictly earlier than the next |
| `Releases.Repositories` | app/models/release.rb:20-23 | The list has ten apps; every app appears in it, none appears twice, and their column names are distinct |
| `VersionKey.Key` | app/models/release.rb:31 | The sort key `a.split('.').map(&:to_i)`; its contract only spells out that definition, and what the key means is stated by `VersionKey.KeyOfRender`, `VersionKey.NumericNotTextual` and `VersionKey.NonNumericSegmentIsZero` |
| `VersionKey.KeyOfRender` | app/models/release.rb:31 | The key of the version "n1.n2...." is the list [n1, n2, ...]; splitting on "." and reading each segment with to_i inverts rendering |
| `VersionKey.NumericNotTextual` | app/models/release.rb:31 | Segments compare as numbers: "m.x" ranks below "m.y" whenever x < y, so "1.9" ranks below "1.10" |
| `VersionKey.NonNumericSegmentIsZero` | app/models/release.rb:31 | A segment that does not start with a sign or a digit (after white space) contributes 0 to the key |
| `VersionKey.Compare` | app/models/release.rb:31 | `Array#<=>` on keys; no contract of its own: `VersionKey.CompareIsLexicographic` states what it returns |
| `VersionKey.CompareIsLexicographic` | app/models/release.rb:31 | The comparator returns -1, 0 or 1 exactly as the first key is lexicographically below, equal to or above the second; a proper prefix is below |
| `VersionKey.ProperPrefixIsSmaller` | app/models/release.rb:31 | A proper prefix of a key ranks below it ([1, 0] below [1, 0, 1]) |
| `VersionKey.CompareAntisymmetric` | app/models/release.rb:31 | Swapping the two keys negates the comparison |
| `VersionKey.KeyLeTransitive` | app/models/release.rb:31 | The ordering of keys is transitive |
| `VersionKey.KeyLeTotal` | app/models/release.rb:31 | Any two keys are comparable |
| `VersionKey.SortBy` | app/models/release.rb:31 | The sort_by result is sorted by key and is a permutation of its input |
| `VersionKey.Insert` | app/models/release.rb:31 | Inserting into a sorted list keeps it sorted and adds exactly the one element |
| `VersionKey.LastOrDash` | app/models/release.rb:31 | `.last \|\| '-'`; no contract of its own: `VersionKey.LastOfSortedIsGreatest` states what it returns for a sorted list |
| `VersionKey.LastOfSortedIsGreatest` | app/models/release.rb:31 | For any sorted permutation of the values, whatever order it leaves equal keys in: the last element (or "-" if there are none) is one of the values, and no value has a greater key |
| `RubyText.JoinFields` | app/models/release.rb:31 | Joining the fields of a string with the separator gives the string back |
| `RubyText.FieldsJoin` | app/models/release.rb:31 | Splitting a join of separator-free parts gives the parts back |
| `RubyText.Split` | app/models/release.rb:31 | No part contains the separator, and the last part is not empty |
| `RubyText.DropTrailingEmpty` | app/models/release.rb:31 | The result is a prefix of the fields whose last element is not empty, and only empty fields were dropped |
| `RubyText.ToI` | app/models/release.rb:31 | `String#to_i`; no contract of its own: `RubyText.ToIDecimal` and `RubyText.ToINonNumeric` state what it reads |
| `RubyText.ToIDecimal` | app/models/release.rb:31 | to_i reads a rendered number back: n.to_s.to_i == n and ("-" + n.to_s).to_i == -n |
| `RubyText.ToINonNumeric` | app/models/release.rb:31 | A string that does not start with a sign or a digit (after white space) reads as 0 |
| `RubyText.Blank` | app/models/release.rb:27 | `blank?` on a nilable string: nil, empty or white space only; no contract of its own: `RubyText.PresentIffNonSpace` characterises it |
| `RubyText.Present` | app/models/release.rb:45 | `present?`, the negation of `blank?`; no contract of its own: `RubyText.PresentIffNonSpace` states when a string is present |
| `RubyText.PresentIffNonSpace` | app/models/release.rb:27 | A string is present exactly when it has a character that is not white space |
| `ReleaseRecord.CoordinatorAfterHook` | app/models/release.rb:44-46 | The coordinator after the hook is present; a present coordinator is unchanged, and a blank one (nil, empty or white space) becomes "Russell Craxford" |
| `ReleaseRecord.CoordinatorAfterHookIdempotent` | app/models/release.rb:44-46 | Running the hook twice is the same as running it once |
| `ReleaseRecord.DefaultCoordinatorIsPresent` | app/models/release.rb:45 | The default coordinator is not blank |
| `ReleaseRecord.Release.SetCoordinator` | app/models/release.rb:44-46 | The coordinator field becomes the hook's result and is present; every other attribute is unchanged |
| `ReleaseRecord.Release.IsValid` | app/models/release.rb:9 | `valid?` under `validates_presence_of :date`; no contract of its own: `ReleaseRecord.Release.Save` states that a record is written exactly when its date is present |
| `ReleaseRecord.Release.Save` | app/models/release.rb:9-10 | A record is written exactly when its date is present; then the hook has run, and the written row has a date and a coordinator that is not blank; otherwise nothing changes |
| `ReleaseRecord.Release.constructor` | app/models/release.rb:2-5 | A new record holds exactly the given attributes |

## Left out

- `sop_version` (app/models/release.rb:48-55) is not modelled. It calls a source-hosting API over the network and decodes base64 with a library, and any failure becomes "?".
- `search_filter` (app/models/release.rb:14-18) is not modelled. What it does is defined by SQL: `LIKE` wildcards, the database's collation, and an inner join that drops releases without a note.
- Persistence is not modelled: inserting, deleting and counting rows, `has_one :release_note`, `paginates_per`, and attribute whitelisting. The default status "UAT" comes from the database schema, which is not part of this model.
- `Releases.Candidates`: excludes exactly the empty string, as written. Under a PAD SPACE collation (MySQL 5's defaults), a value of spaces only would be excluded too.
- `VersionKey.SortBy`: puts values with equal keys in reverse input order, whereas Ruby's `sort_by` leaves that order unspecified. When several rows tie for the greatest key, `Releases.Version` therefore returns the one that comes first in table order. `Releases.VersionFallbackIsGreatest` is proved for every order, through `VersionKey.LastOfSortedIsGreatest`.
- `Releases.LastRelease`: among rows with the same latest date it returns the last in table order, and `Releases.NextRelease` the first among the earliest. The database may return any of them; the contracts only say the date is the latest (or earliest).
- `Releases.Version`: takes the app from a closed set. The source interpolates any app name into the SQL text, which is not modelled. An unknown name would fail as an unknown column.
- `Releases.Version`: the source stores the release's date in an instance variable of the class (`@date`). That side effect is not modelled, since nothing reads it.
- Dates are day numbers. The source compares the date column with today formatted as `YYYY-MM-DD`, which orders the same way as the dates.
- `RubyText.ToI`: follows `String#to_i` for white space, sign, digits, single underscores between digits and the `0d` prefix. It reads an underscore directly after the `0d` prefix as ending the number.
