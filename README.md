# gpx-stabilizer trackpoint clean-up, modelled in Dafny

gpx-stabilizer's `fix.js` reads a GPX track (as written by a GoPro camera), annotates every
trackpoint with its time in epoch seconds, drops the points whose timestamp does not move
forward or whose position did not change, writes the track back as GPX and puts every
`trkpt` tag on a line of its own. This project models the logic of that script:

- `trackpoints.dfy`, module `Trackpoints`: a trackpoint is a `class` (a JavaScript object whose
  `second` field `addSecond` writes in place); the arrays passed between the steps are
  `seq<Trackpoint>`, since `map` and `filter` build new arrays of the same objects and none is
  updated in place.
  - `AddSecond` / `AddSeconds` write `second = time / 1000` into every point and change nothing else.
  - `Keep` is the test of fix.js line 22: the point is strictly later than `prev` and not at
    the same (lat, lng).
  - `FilterGoproBadTime` is the filter pass with its `prev` cursor, proved equal to the
    specification function `GoodTime` (the cursor pass `FilterFrom` started on the first
    point). `IsSelection` says the same thing by index, and `GoodTimeSelects` and
    `GoodTimeIsTheSelection` prove the two agree: input point i >= 1 is kept iff
    `Keep(point i - 1, point i)`; point 0 is never kept, since it is compared with itself.
  - `FixTrackpoints` is the `.then(addSeconds).then(filterGoproBadTime)` part of the promise chain.
- `trkpt_lines.dfy`, module `TrkptLines`: the global replace of line 43. It puts a newline
  before and after every match of the regular expression "`<`, any number of `/`, `trkpt`, any
  run of characters other than `>`, then `>`". The replace itself is `BreakTrkptTags`, which
  scans the text into pieces (`Split`) and writes them out (`Render`). The single-position
  matcher `MatchAt` is proved to find exactly the matches of a declarative description of the
  expression (`IsTrkptTag`) in `MatchAtSound` and `MatchAtComplete`. `SplitText`,
  `SplitAtMatch` and `NoTagUnchanged`, with the length stated on `BreakTrkptTags` itself, say what
  it does.
- `options.dfy`, module `Options`: an `Option` datatype (a field not yet written, a search that
  finds nothing).

The model assumes that the parser hands every point a timestamp that compares as its instant in
epoch milliseconds (as a JavaScript Date does under `>`), so `time` is that integer and
`getTime()` returns it; the parser is not part of this model, and a timestamp kept as text would
compare character by character instead. Latitude and longitude are `real`s and are only compared
for equality; elevation is carried along and never read.

Other processing of GPS tracks (window averaging, speed filtering, segmentation into intervals,
merging of tracks) does not appear in `fix.js` or `index.js` and is not modelled.

## Model

| member | source | states |
|---|---|---|
| Trackpoints.EpochSeconds | fix.js:13 | the `second` value times 1000 is the point's epoch milliseconds |
| Trackpoints.EpochSecondsMonotone | fix.js:13 | converting to seconds keeps the order of instants |
| Trackpoints.AddSecond | fix.js:12-15 | writes `second` into the given point itself (only that field) and returns the same point |
| Trackpoints.AddSeconds | fix.js:17 | returns the same points in the same order, every one annotated with its seconds, with lat, lng, ele and time unchanged |
| Trackpoints.SecondsNondecreasing | fix.js:12-17 | once annotated, points with non-decreasing times have non-decreasing seconds |
| Trackpoints.Keep | fix.js:22 | the keep test: strictly later than `prev` and not at the same (lat, lng); a kept point is never `prev` itself (see GoodTimeSelects, GoodTimeIsTheSelection) |
| Trackpoints.NeverKeepsItself | fix.js:20-22 | a point compared with itself fails the test, because its time is not strictly later |
| Trackpoints.FilterFrom | fix.js:21-24 | the filter with the cursor on `prev` keeps at most the points it is given and only those |
| Trackpoints.GoodTime | fix.js:19-26 | empty input gives empty output; a non-empty input loses at least one point (its first); only input points come out |
| Trackpoints.FilterGoproBadTime | fix.js:19-26 | the filter pass with its `prev` cursor returns exactly `GoodTime` of its input |
| Trackpoints.KeptFrom | fix.js:21-24 | the kept positions ascend, lie in the input, and position i is among them iff point i passes the test against point i - 1 |
| Trackpoints.FilterFromAt | fix.js:21-24 | the filter from the cursor at position j - 1 returns the input points at the kept positions, in order |
| Trackpoints.GoodTimeSelects | fix.js:19-26 | the output is the input restricted to ascending positions, position 0 never among them, position i >= 1 among them iff time[i] > time[i-1] and (lat, lng) differs from point i - 1 |
| Trackpoints.GoodTimeIsTheSelection | fix.js:19-26 | any output meeting that rule is the filter's output: the rule determines it |
| Trackpoints.FilterFromKeepsAll | fix.js:21-24 | the filter keeps every point given iff each passes the test against its predecessor, and then returns them unchanged |
| Trackpoints.GoodTimeKeepsAllIff | fix.js:20-24 | a non-empty input loses only its first point iff every point is strictly later and elsewhere than the point before it; the output is then the input minus its first point |
| Trackpoints.RefilterShrinks | fix.js:19-26 | filtering a non-empty output again makes it shorter: the filter is not idempotent |
| Trackpoints.PrevIsPrecedingPoint | fix.js:22-23 | the cursor moves to dropped points too, so a point is tested against the input point just before it, not against the last point kept |
| Trackpoints.OutputMayGoBackInTime | fix.js:21-24 | after a backward jump in time only the first point of the jump is dropped, so the output `[b, d]` is not in time order |
| Trackpoints.FixTrackpoints | fix.js:36-38 | annotating and then filtering returns `GoodTime` of the points; every parsed point, kept or dropped, is annotated and no other field changes |
| TrkptLines.IsTrkptTag | fix.js:43 | the regular expression as a property of a whole string; a match holds '>' only as its last character, which makes the match at a position unique; MatchAtSound and MatchAtComplete tie the matcher to it |
| TrkptLines.SkipSlashes | fix.js:43 | the end of the run of '/' at a position: all before it are '/', the character there is not |
| TrkptLines.FindGt | fix.js:43 | the first '>' at or after a position, or none when there is no '>' there |
| TrkptLines.SkipSlashesStopsAt | fix.js:43 | a run of '/' that stops at n is exactly what is skipped before "trkpt" |
| TrkptLines.FindGtStopsAt | fix.js:43 | a '>' with none before it from i on is the one that ends the match |
| TrkptLines.MatchAt | fix.js:43 | a match found at p ends after p and within the text |
| TrkptLines.MatchAtSound | fix.js:43 | what `MatchAt` finds at p is a match of the tag expression |
| TrkptLines.MatchAtComplete | fix.js:43 | every match starting at p is the one `MatchAt` finds, so at most one match starts at p |
| TrkptLines.Split | fix.js:43 | the left-to-right, non-overlapping scan of the global replace: at most one piece per character, none only for the empty rest; its pieces spell out the input and sit exactly at the matches (see SplitText, SplitAtMatch, SplitTagsMatch) |
| TrkptLines.Render | fix.js:43 | writes every match with a newline before and after it and copies everything else, so the result is the pieces' text plus exactly two characters per match |
| TrkptLines.BreakTrkptTags | fix.js:43 | the replace of line 43: the output length is the input length plus twice the number of matches the scan finds; text with no match is unchanged (see NoTagUnchanged, ExampleTrackpointLines) |
| TrkptLines.SplitHead | fix.js:43 | the scan's first piece is the match at p if there is one, else the character at p |
| TrkptLines.SplitText | fix.js:43 | the pieces of the scan spell out the input: nothing is lost or changed |
| TrkptLines.SplitTagsMatch | fix.js:43 | every Tag piece of the scan is a match of the tag expression |
| TrkptLines.SplitAtMatch | fix.js:43 | the scan takes s[p..e] as one match iff s[p..e] matches the tag expression |
| TrkptLines.RenderNoTags | fix.js:43 | with no match among the pieces, rendering gives back their text |
| TrkptLines.SplitNoTags | fix.js:43 | a text with no match anywhere is scanned into character pieces only |
| TrkptLines.NoTagUnchanged | fix.js:43 | a text with no match anywhere is left exactly as it was |
| TrkptLines.ExampleOpenTag | fix.js:43 | `<trkpt a>` at the start of `<trkpt a></trkpt>` is one match ending at its '>' |
| TrkptLines.ExampleCloseTag | fix.js:43 | `</trkpt>` matches through its '/' |
| TrkptLines.RenderTwoTags | fix.js:43 | two consecutive matches come out as newline, first, newline, newline, second, newline |
| TrkptLines.ExampleSplit | fix.js:43 | the scan of `<trkpt a></trkpt>` is exactly its two tags |
| TrkptLines.ExampleTrackpointLines | fix.js:43 | `<trkpt a></trkpt>` becomes `\n<trkpt a>\n\n</trkpt>\n` |

## Left out

- index.js: it parses a file and prints the parsed result, which is I/O only.
- GPX parsing and serialisation (`gpsUtil.gpxParseFile`, `gpsUtil.toGPX`, fix.js:9-10, 36, 39-42): they are calls into the gps-util library, which is not part of this model. The model starts from the parsed trackpoints and ends at the GPX text.
- Command-line handling, the usage message, `process.exit` and `writeFileSync` (fix.js:3, 7, 29-34, 43): file and process plumbing.
- The date parse `new Date(trackpoint.time).getTime()` (fix.js:13): a foreign call. `time` is already the epoch milliseconds it would return; invalid dates (NaN) and missing timestamps are not modelled.
- The promise chain's asynchronous sequencing (fix.js:36-43): only the order of the steps is kept, in `FixTrackpoints`.
- The `victor` import (fix.js:5): never used.
- Trackpoints.EpochSeconds: the division is exact on `real`, not IEEE-754 double rounding.
- Trackpoints.Keep: coordinates are `real`s, so JavaScript's NaN (never `===` to itself) cannot occur; the time comparison is on integers.
- Fields of a parsed point other than lat, lng, ele, time and second are not modelled; no step reads or writes them.
- JavaScript strings are UTF-16 code units, modelled as Dafny characters; the expression is ASCII, so matches are the same.
