# XSPF track metadata — a Dafny model

This project models the core of `xspf_parser_jsl-rs`, a small Rust program that reads
XSPF playlists of practice recordings and works out what each track is from its file
name. Three pieces are modelled:

- **File-name decomposition** (`src/track_name_info.rs`): a stem such as
  `v05L-wild_west` or `20170802-02-TouchedByAnAngel` is classified by two anchored
  regular expressions, tried in order. A violin-layering stem is `v`, digits, an
  optional letter, `-` and a title. A muse-score stem is an 8-digit date, an optional
  letter, `-`, digits, `-` and a title. Either one yields a type, an index and a name.
  Any other stem falls back to the unknown type. A file name is split into stem and
  extension the way `std::path::Path` does it. The extension must be one of five
  lower-case names, or the program panics.
- **Durations** (`src/track_duration.rs`): a millisecond count with `+`/`+=` against
  another duration or a raw count, and a `mm:ss` timecode for `Display` and `Debug`.
- **Track construction and playlist assembly** (`src/xspf_parser.rs`): a `file:///`
  URI becomes a track whose file name and date are the last two `/`-pieces of the
  path. A track element needs a `location` child, and its `duration` child is used
  only when it parses. The playlist is built in one pass over the root's sections. It
  keeps, in document order, every track element that yields a track, and takes its
  title from the last `title` section.

Modules: `Outcomes` (option and result types), `Text` (ASCII digits, Rust's integer
`parse`, `{}` rendering, `split` on one character), `TrackNames`, `Durations` and
`XspfParser`.

Rust's two ways of failing are kept apart. A function that returns `Err("…")`
becomes an `Err` carrying the program's own message. An `unwrap()` that would abort
the process becomes `Panicked(cause)`. In `from_xml_tree` a track whose construction
returns `Err` is skipped, but a panic inside any track aborts the whole build, so
`XspfParser.PlaylistOf` yields that panic.

`src/xspf_parser.rs` carries older copies of the filename logic and of the
duration's timecode, `Display` and `Debug`. Those copies are identical, with one
exception: a stem of neither shape gets index 1 there (`src/xspf_parser.rs:200`) and 0
in `src/track_name_info.rs:149`. The model has a single recogniser,
`TrackNames.FromFileStemWith`, which takes the fallback index as a parameter. Each
file's variant is an instance of it. The same sharing applies to `TrackType`,
`TrackExtension` and `from_str`.

The program does not do the following, and neither does the model:

- decode percent-escapes in a track's path;
- keep an extension outside the five names as a value: that is a panic;
- match extensions case-insensitively, or recognise `mkv`;
- strip prefixes from track names, or give an untitled playlist a default title;
- use a playlist's title text alone: the playlist's file name is appended to it;
- report a track path without any `/` as an error: that is a panic;
- total the durations of a playlist, or compute a width for printing indices.

## Model

| member | source | states |
|---|---|---|
| Text.ParseDigits | src/track_name_info.rs:123-124 | a bare digit run parses to its own value when that value is in the type's range, and fails otherwise |
| Text.ParseIntegerText | src/xspf_parser.rs:329 | `parse::<i64>` reads back any in-range integer rendered with `{}`, with its sign |
| Text.ParseInteger | src/xspf_parser.rs:329 | a successful parse lies in the type's range, comes from a non-empty text of digits with at most a leading `+` or `-`, and is negative only after a `-` |
| Text.ParseSigned | src/xspf_parser.rs:329 | a `+` before a digit run parses as the bare run; a `-` before it parses as the negated value when that is in range and fails otherwise, so "+5" gives 5 and "-05" gives -5 |
| Text.IntegerText | src/track_name_info.rs:192-196 | `{}` of an integer: non-empty, starts with `-` exactly when the number is negative, the digits after any sign read back as its magnitude, and they never start with a superfluous '0' |
| Text.Decimal | src/track_duration.rs:36 | `{}` rendering of a non-negative integer: non-empty, all digits, one digit exactly below 10, no leading zero, and its digits read back as the number |
| Text.Split | src/xspf_parser.rs:286 | splitting gives at least one piece; there is exactly one piece when the separator is absent; no piece contains the separator |
| Text.JoinSplit | src/xspf_parser.rs:286 | joining the pieces with the separator gives back the original text |
| Text.SplitAppend | src/xspf_parser.rs:286 | text ending in a separator and a separator-free piece splits into the split of the front, then that piece |
| Text.SplitLastTwo | src/xspf_parser.rs:286-289 | with a separator present there are at least two pieces, and the last two with the separator between them end the text |
| Text.SplitEndsWithPieces | src/xspf_parser.rs:286-289 | a text ending in `a/b` (after nothing or after a `/`) has `a` and `b` as its last two pieces |
| TrackNames.ShortnameInjective | src/track_name_info.rs:27-36 | distinct track types have distinct display abbreviations |
| TrackNames.Shortname | src/track_name_info.rs:27-36 | the display abbreviation has one or two characters and is "?" exactly for the unknown type |
| TrackNames.ShortnameSafe | src/track_name_info.rs:39-48 | the file-name-safe abbreviation equals the display one for every type but the unknown one, and is always non-empty letters |
| TrackNames.ShortnameSafeInjective | src/track_name_info.rs:39-48 | the safe abbreviations are distinct, and only the unknown type's differs from its display form |
| TrackNames.ParseExtension | src/track_name_info.rs:74-83 | parsing succeeds exactly on "mp3", "flac", "ogg", "m4a", "mp4"; a success is never `Placeholder` and names the text parsed; anything else is the "Unknown extension" error |
| TrackNames.ParseExtensionName | src/track_name_info.rs:71-84 | every real extension's name parses back to it; "Placeholder" does not parse |
| TrackNames.ParseExtensionCaseSensitive | src/track_name_info.rs:74-83 | "MP3", "Flac" and the empty text are errors |
| TrackNames.ExtensionName | src/track_name_info.rs:56-64 | the derived `Debug` name of an extension is non-empty and holds no `.` or `/`, so it can follow the last dot of a file name |
| TrackNames.MatchViolinLayering | src/track_name_info.rs:114 | what the violin-layering recogniser captures spells out the whole stem as `v`, digits, optional letter, `-`, a non-empty newline-free rest |
| TrackNames.ViolinLayeringMatchComplete | src/track_name_info.rs:114 | every stem of that shape is matched, with exactly those captures |
| TrackNames.MatchMuseScore | src/track_name_info.rs:117 | what the muse-score recogniser captures spells out the whole stem as 8 digits, optional letter, `-`, digits, `-`, a non-empty newline-free rest |
| TrackNames.MuseScoreMatchComplete | src/track_name_info.rs:117 | every stem of that shape is matched, with exactly those captures (the rest may contain `-`) |
| TrackNames.VariantThenDashComplete | src/track_name_info.rs:114 | the optional-letter-then-dash piece of both patterns accepts an optional letter and a dash, with those captures |
| TrackNames.DigitsThenDashComplete | src/track_name_info.rs:117 | the digits-then-dash piece accepts a digit run and a dash, with those captures |
| TrackNames.PatternsDisjoint | src/track_name_info.rs:114-117 | no stem has both shapes, so trying violin layering first never changes the result |
| TrackNames.ParseIndex | src/track_name_info.rs:123-124 | the index is the digits' value when it fits in an `i32` and 0 otherwise, so never negative |
| TrackNames.FromFileStemWith | src/track_name_info.rs:109-160 | the extension is `Placeholder`; only the unknown, violin-layering and muse-score types arise; the unknown type keeps the fallback index and the whole stem; otherwise the index is in the `i32` range and the name is a non-empty suffix of the stem |
| TrackNames.ViolinLayeringStem | src/track_name_info.rs:121-133 | a violin-layering stem gives that type, the index of its digits and its rest verbatim, with the letter dropped |
| TrackNames.MuseScoreStem | src/track_name_info.rs:134-146 | a muse-score stem gives that type, the index of its second digit run and its rest verbatim, with the date dropped |
| TrackNames.UnknownStem | src/track_name_info.rs:147-159 | the fallback is taken exactly when the stem has neither shape |
| TrackNames.FallbackOnlyForUnknown | src/track_name_info.rs:147-159 | two fallback indices give the same type, and results that differ only in that index |
| TrackNames.FromFileStem | src/track_name_info.rs:109-160 | the index is never negative; an unknown stem gets index 0 and keeps the whole stem as its name |
| TrackNames.PaddedIndexExamples | src/track_name_info.rs:123-124 | "01", "05" and "02" give the indices 1, 5 and 2 |
| TrackNames.ViolinLayeringExamples | src/track_name_info.rs:121-133 | "v01-tranquil" gives (violin layering, 1, "tranquil"); "v05L-wild_west" gives (violin layering, 5, "wild_west") |
| TrackNames.MuseScoreExample | src/track_name_info.rs:134-146 | "20170802-02-TouchedByAnAngel" gives (muse score, 2, "TouchedByAnAngel") |
| TrackNames.UnknownExamples | src/track_name_info.rs:147-159 | "randomfile" and "v01" give the unknown type, index 0, the stem as name |
| TrackNames.FileName | src/track_name_info.rs:167-168 | the final path component is never "", "." or ".." and holds no `/`; a `/`-free name is its own final component unless it is "", "." or ".." |
| TrackNames.LastNormalComponent | src/track_name_info.rs:167-168 | a result is the last piece that is neither empty nor "." (only such pieces follow it), and is not ".."; nothing is found only when every piece is empty or ".", or when that last piece is ".." |
| TrackNames.FileNameAfterSlash | src/track_name_info.rs:167-168 | any path ending in `/` and a plain name has that name as its final component |
| TrackNames.NewWithInDirectory | src/track_name_info.rs:164-185 | a file name behind any directories decomposes (or panics) exactly as the bare file name does |
| TrackNames.StemAndExtension | src/track_name_info.rs:168-176 | with an extension, stem + "." + extension is the name, the stem is non-empty and the extension holds no `.`; without one, the stem is the whole name |
| TrackNames.ExtensionAfterLastDot | src/track_name_info.rs:168-176 | a non-empty stem, a dot and a dot-free text split back into exactly that stem and extension |
| TrackNames.NewWith | src/track_name_info.rs:164-185 | construction never returns an error value; its panics never concern parent segments; a success carries a real extension, whose name ends the final path component after a dot |
| TrackNames.NewWithKnownExtension | src/track_name_info.rs:164-185 | a bare stem with a recognised extension gives the stem's information with that extension |
| TrackNames.NewWithUnknownExtension | src/track_name_info.rs:177-178 | any other text after the last dot is a panic naming that text |
| TrackNames.NewWithoutExtension | src/track_name_info.rs:175-176 | a name without a dot is a panic for the missing extension |
| TrackNames.NewFallbackOnlyForUnknown | src/track_name_info.rs:164-185 | success or panic does not depend on the fallback index, and successes differ in nothing else |
| TrackNames.New | src/track_name_info.rs:164-185 | never an error value; a success never carries `Placeholder` and has a non-negative index |
| TrackNames.DebugText | src/track_name_info.rs:188-198 | the debug text opens with the bracketed short name and "idx=", and closes with the extension's variant name |
| TrackNames.DebugTextShowsType | src/track_name_info.rs:188-198 | records of different types never have the same debug text |
| Durations.Add | src/track_duration.rs:42-50 | the sum exceeds the first duration by exactly the second, and the other way round; a positive (negative) second duration makes it larger (smaller) |
| Durations.AddMs | src/track_duration.rs:63-70 | the sum exceeds the duration by exactly the raw count; a positive (negative) count makes it larger (smaller) |
| Durations.AddMsIsAdd | src/track_duration.rs:63-70 | adding a raw count is adding a duration of that many milliseconds |
| Durations.AddLaws | src/track_duration.rs:42-50 | adding 0 (raw or as a duration) is the identity; addition commutes and associates wherever it does not overflow |
| Durations.TruncDiv | src/track_duration.rs:32 | Rust's `/`: for a non-negative dividend, quotient·divisor is the largest multiple not above it; for a negative one, the smallest multiple not below it, so the quotient rounds toward zero |
| Durations.TruncRem | src/track_duration.rs:33 | Rust's `%`: quotient times divisor plus remainder is the dividend, and the remainder has the dividend's sign and is smaller than the divisor |
| Durations.Pad2 | src/track_duration.rs:36 | `{:02}`: at least two characters; a non-negative number as its digits, which read back as the number; exactly two characters below 100; no leading '0' from 10 on; a leading '-' for a negative one |
| Durations.Pad2TwoDigits | src/track_duration.rs:36 | below 100, `{:02}` is exactly the tens digit followed by the units digit |
| Durations.ToTimecode | src/track_duration.rs:26-37 | the timecode has at least five characters and contains ':' |
| Durations.TimecodeReadsBack | src/track_duration.rs:26-37 | for a non-negative duration: digits, ':', two digits; the minutes are ms / 60000, never wrapped, written without a superfluous leading zero (the text starts with '0' exactly below ten minutes); below a hundred minutes the text is exactly five characters; the seconds are below 60; minutes·60 + seconds = ms / 1000 |
| Durations.TimecodeUnderAMinute | src/track_duration.rs:28-29 | 59 999 ms shows as "00:59": the sub-second part is dropped, not rounded |
| Durations.TimecodeHundredMinutes | src/track_duration.rs:32 | 6 000 000 ms shows as "100:00" |
| Durations.TimecodeNegative | src/track_duration.rs:32-33 | -1 500 ms shows as "00:-1" |
| Durations.Display | src/track_duration.rs:81-87 | a duration prints as its timecode, which contains ':' and so is never the raw millisecond count |
| Durations.Debug | src/track_duration.rs:90-96 | the debug text is the display text |
| Durations.DurationCell.AddAssign | src/track_duration.rs:51-59 | after `+=` with a duration, the held value is the `+` of the old value and it |
| Durations.DurationCell.AddAssignMs | src/track_duration.rs:71-77 | after `+=` with a raw count, the held value is the `+` of the old value and it |
| XspfParser.FromFileStem | src/xspf_parser.rs:160-211 | this copy agrees with the other on every stem that has a shape, and on any other stem differs only by index 1 |
| XspfParser.New | src/xspf_parser.rs:215-236 | this copy fails exactly where the other does, and differs from it only in the fallback index |
| XspfParser.FindChild | src/xspf_parser.rs:319-320 | nothing is found exactly when no child has the name; what is found is a child with that name |
| XspfParser.FindChildFirst | src/xspf_parser.rs:319-320 | the child found is the first one with that name |
| XspfParser.FromFilepath | src/xspf_parser.rs:277-299 | never an error value; the missing-parent panic happens exactly when the path has no `/`; a track keeps the path verbatim, has no duration, and its `/`-free date and file name, joined by `/`, end the path |
| XspfParser.FromFilepathParts | src/xspf_parser.rs:286-298 | a path ending in `date/filename` gives exactly that date and file name, with the file name's information or its panic |
| XspfParser.FromUri | src/xspf_parser.rs:302-313 | the unsupported-URI error happens exactly when the text does not start with "file:///"; a track's path is the URI without that prefix |
| XspfParser.FromUriOfPath | src/xspf_parser.rs:304-307 | a URI built from the prefix and a path gives what the path gives |
| XspfParser.DurationOf | src/xspf_parser.rs:327-332 | no duration exactly when there is no duration child or its text does not parse as an `i64`; otherwise the parsed value |
| XspfParser.DurationOfText | src/xspf_parser.rs:328-331 | a duration child holding a rendered `i64` yields exactly that duration |
| XspfParser.FromXmlElem | src/xspf_parser.rs:317-347 | a skipped element carries one of the two messages, for a missing location or a non-file URI |
| XspfParser.FromXmlElemOutcome | src/xspf_parser.rs:317-347 | an element is an error exactly when it has no location child or a non-file URI, with the matching message; it panics exactly when its URI's path panics, with the same cause; a track is the URI's track with the declared duration |
| XspfParser.FromXmlElemNoDirectory | src/xspf_parser.rs:286-289 | a track element whose file URI holds a path without `/` panics for the missing parent segment, which aborts the whole playlist |
| XspfParser.FromXmlElemDuration | src/xspf_parser.rs:317-336 | a file URI and a rendered duration give the path's track with that duration |
| XspfParser.FromXmlTree | src/xspf_parser.rs:362-396 | the loop yields exactly `PlaylistOf`: the first panic of any track element, or the kept tracks of all track lists in document order and the title |
| XspfParser.CollectTracks | src/xspf_parser.rs:375-380 | the inner loop finds exactly the first panic of a track list's elements, and otherwise appends the tracks they yield, in order, to those collected before |
| XspfParser.OutcomeStep | src/xspf_parser.rs:376-380 | one more element: a first panic stays first, a new panic becomes first, a track is kept after the earlier ones |
| XspfParser.KeptMembers | src/xspf_parser.rs:376-380 | a track is kept exactly when some element produced it |
| XspfParser.KeptAll | src/xspf_parser.rs:376-380 | when every element yields a track, all are kept, in order and at the same positions |
| XspfParser.KeptAppend | src/xspf_parser.rs:376-380 | the tracks kept from two runs of elements are those of the first followed by those of the second |
| XspfParser.FirstPanicIsFirst | src/xspf_parser.rs:376-380 | no panic is found exactly when no element panics; otherwise the cause is that of a panic with none before it |
| XspfParser.FirstPanicAppend | src/xspf_parser.rs:376-380 | the first panic of two runs is the first run's, or else the second's |
| XspfParser.TrackElementsMembers | src/xspf_parser.rs:375-380 | the track elements are exactly the children of the "trackList" sections |
| XspfParser.TrackElementsAppend | src/xspf_parser.rs:368-389 | the track elements of two runs of sections are those of the first followed by those of the second |
| XspfParser.PlaylistTitleIsLast | src/xspf_parser.rs:370-373 | no title exactly when there is no "title" section; otherwise "text - filename" of the last such section |
| XspfParser.PlaylistTitleAppend | src/xspf_parser.rs:368-373 | a later title section overrides an earlier one |
| XspfParser.PlaylistTitle | src/xspf_parser.rs:370-373 | a title always ends with " - " and the playlist's file name |
| XspfParser.OtherSectionIgnored | src/xspf_parser.rs:387 | inserting a section that is neither "title" nor "trackList" anywhere changes nothing |
| XspfParser.PlaylistOf | src/xspf_parser.rs:362-396 | building a playlist never gives an error value; a playlist has at most one track per track element, and its title ends with the file name |
| XspfParser.LenBound | src/xspf_parser.rs:399-402 | the length is at most the number of track elements, and each track came from one of them |
| XspfParser.Len | src/xspf_parser.rs:399-402 | the length is zero exactly when the playlist has no tracks |

## Left out

- `parse_file` and `parse_xspf` (`src/xspf_parser.rs:413-441`) read a file and parse it as XML. That I/O and XML parsing are outside the model, which takes the element tree as a value. An element has only its local name, the text it directly holds and its child elements; attributes, namespaces and text split around child elements are not modelled.
- `to_secs` and `to_mins` return `f64` and are not modelled. `to_timecode` uses `to_secs` only through `as i64`, which the model writes as integer division truncating toward zero.
- Durations.ToTimecode: requires |ms| < 2^53, where the `f64` quotient truncates to the same whole number of seconds as integer division; longer durations are not modelled.
- Durations.Add, Durations.AddMs, Durations.DurationCell.AddAssign and Durations.DurationCell.AddAssignMs require the sum to fit in an `i64`. Rust panics on overflow in debug builds and wraps in release builds; neither is modelled.
- Durations.Pad2: for a negative number it states only the leading '-', which is all the timecode needs.
- Regular-expression details: `\d` is restricted to ASCII digits, while Rust's regex crate also accepts other Unicode decimal digits. `[[:alpha:]]` (ASCII letters) and `.` (any character but a newline) are exact.
- Paths are split on `/` only. Windows prefixes and `\` separators are not modelled. `to_str().unwrap()` cannot fail on Dafny strings and is not modelled.
- `XspfParser.FromXmlTree` returns a result rather than a bare playlist, so a panic in one track element is visible as `Panicked` rather than aborting a process.
- The `Debug` of `TrackType` and `TrackExtension` appears only as their variant names (`TrackNames.ExtensionName`). The serde derives are not modelled.
- `src/main.rs` and `src/logic_macros.rs` are not part of this model. The first only prints messages; the second defines a membership macro the core does not use.
- The duplicated type definitions in `src/xspf_parser.rs` (`TrackDuration`, `TrackType`, `TrackExtension`, `FilenameInfoComponents`) are the same model types as in the other two files. The copy of `shortname` there has no `shortname_safe` beside it.
