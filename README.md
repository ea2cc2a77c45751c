# Singapore restaurant scrape: result deduplicator and land test

This project models two small pieces of logic from the Singapore campaign of
the Google Maps scraper, and proves properties of them.

- The **result deduplicator** (`singapore/dedup_results.py`, `dedup`). It
  reads the raw CSV records once and gives each record a key. The key is
  `did:<data_id>` when the stripped `data_id` cell is non-empty. Otherwise it
  is `tloc:<title>|<latitude>|<longitude>`, when all three stripped cells are
  non-empty. Otherwise the record has no key. The first record for each key
  is kept; later records with that key count as duplicates; keyless records
  are counted and dropped. `--stats-only` keeps the counters but writes no
  rows.
- The **ray-casting point-in-polygon test** (`singapore/generate_singapore_grid.py`,
  `point_in_polygon` and `point_in_any_polygon`). The grid generator uses it
  to drop grid points at sea. A point is inside when the horizontal ray from
  it towards larger longitude crosses an odd number of polygon edges.

Files:

- `whitespace.dfy`, module `Whitespace`: Python's `str.strip()` over the
  fixed set of characters `str.isspace()` accepts.
- `dedup.dfy`, module `Dedup`: rows as `map<string, string>` (a missing
  column reads as `""`, as `row.get(column, "")` does), the key function
  `KeyOf`, the filter as a function `Run` of the rows read so far, reference
  definitions that do not use the `seen` set, and the method `Deduplicate`.
  `Deduplicate` has the source's loop, counters and `continue` branches, and
  is proved equal to `Run`. `Run` is stated for any key function, so its
  lemmas do not depend on how keys are spelled; `Deduplicate` uses `KeyOf`.
- `ray_casting.dfy`, module `RayCasting`: points, the edge order the loop
  visits, the crossing test, the crossing count, and the two loops as
  methods proved against the even-odd rule `Inside`.

The fallback key is the joined string, as in the source. That join is not
injective: `FallbackKeyAmbiguous` gives two different records with the same
key. `FallbackKeyInjective` proves that the join is injective when the two
coordinate cells contain no `|`. Nothing in the deduplicator checks its
input for this: the cells are any text, so the ambiguous case is reachable.

Coordinates in the land test are exact `real`s. The crossing test divides by
`yj - yi`. The division is in `CrossingLon`, whose precondition is the
`(yi > lat) != (yj > lat)` half of the source's short-circuit `and`, so the
verifier proves the denominator is never zero.

## Model

| member | source | states |
|---|---|---|
| `Whitespace.IsSpace` | singapore/dedup_results.py:40 | the characters `str.isspace()` accepts, which `strip()` removes: tab to carriage return, the information separators, space, next line, no-break space and the Unicode space separators |
| `Whitespace.StripLeading` | singapore/dedup_results.py:40 | the leading half of `strip()`: drops whitespace characters from the front one at a time |
| `Whitespace.StripTrailing` | singapore/dedup_results.py:40 | the trailing half of `strip()`: drops whitespace characters from the back one at a time |
| `Whitespace.Strip` | singapore/dedup_results.py:40 | `str.strip()` with no argument: leading, then trailing whitespace removed |
| `Dedup.Field` | singapore/dedup_results.py:40 | `row.get(column, "")`: the cell's text, or `""` for a missing column |
| `Dedup.DataId` | singapore/dedup_results.py:40 | `row.get("data_id", "").strip()` |
| `Dedup.Title` | singapore/dedup_results.py:45 | `row.get("title", "").strip()` |
| `Dedup.Latitude` | singapore/dedup_results.py:46 | `row.get("latitude", "").strip()` |
| `Dedup.Longitude` | singapore/dedup_results.py:47 | `row.get("longitude", "").strip()` |
| `Dedup.KeyOf` | singapore/dedup_results.py:39-52 | the key: `did:` + stripped `data_id` when that is non-empty, else `tloc:` followed by title, latitude and longitude joined with a bar character, when all three stripped cells are non-empty, else no key |
| `Dedup.Step` | singapore/dedup_results.py:37-61 | one loop iteration: `rows_total` + 1; no key gives `rows_no_key` + 1; a key in `seen` gives `rows_dup` + 1; a new key is added to `seen`, `rows_kept` + 1, and the row is appended to `kept_rows` unless `stats_only` |
| `Dedup.Run` | singapore/dedup_results.py:19-61 | the loop's state after reading the given rows, starting from an empty `seen` and zero counters |
| `RayCasting.Edges` | singapore/generate_singapore_grid.py:110-118 | the (vertex `i`, vertex `j`) pairs in loop order: (first, last), then (`i`, `i - 1`) for each later `i` |
| `RayCasting.Straddles` | singapore/generate_singapore_grid.py:116 | `(yi > lat) != (yj > lat)` |
| `RayCasting.CrossingLon` | singapore/generate_singapore_grid.py:116 | `(xj - xi) * (lat - yi) / (yj - yi) + xi`, defined only for a straddling edge |
| `RayCasting.Crosses` | singapore/generate_singapore_grid.py:116 | the toggle condition: a straddling edge whose crossing longitude is greater than `lon`, with the division only evaluated after the straddle test |
| `RayCasting.CrossingCount` | singapore/generate_singapore_grid.py:113-117 | the number of edges in a list that satisfy the toggle condition |
| `RayCasting.Inside` | singapore/generate_singapore_grid.py:111-119 | the even-odd rule: the crossing count over `Edges` is odd |
| `Whitespace.StripLeadingShape` | singapore/dedup_results.py:40 | `lstrip` removes exactly the leading whitespace prefix: the result is a suffix, everything cut is whitespace, the result does not start with whitespace |
| `Whitespace.StripTrailingShape` | singapore/dedup_results.py:40 | `rstrip` removes exactly the trailing whitespace suffix: the result is a prefix, everything cut is whitespace, the result does not end with whitespace |
| `Whitespace.StripShape` | singapore/dedup_results.py:40-48 | a stripped cell is empty (false in a truth test) exactly when the cell is all whitespace; otherwise it neither starts nor ends with whitespace |
| `Whitespace.StripUnpadded` | singapore/dedup_results.py:40 | a string with no leading or trailing whitespace is unchanged by `strip()` |
| `Whitespace.StripIdempotent` | singapore/dedup_results.py:40 | stripping twice is stripping once |
| `Dedup.NoKeyIff` | singapore/dedup_results.py:40-52 | a row has no key exactly when its `data_id` cell is blank and at least one of title, latitude, longitude is blank; a missing column counts as blank |
| `Dedup.DataIdTakesPrecedence` | singapore/dedup_results.py:40-42 | a non-blank `data_id` gives key `did:` + stripped `data_id`, whatever title, latitude and longitude hold |
| `Dedup.KeyTag` | singapore/dedup_results.py:42-49 | a key's first character is `d` for a `data_id` key and `t` for a fallback key |
| `Dedup.KeyKindsDisjoint` | singapore/dedup_results.py:42-49 | a `data_id` key never equals a fallback key |
| `Dedup.DataIdKeyInjective` | singapore/dedup_results.py:40-42 | two rows keyed by `data_id` share a key exactly when their stripped `data_id` cells are equal |
| `Dedup.FallbackKeyInjective` | singapore/dedup_results.py:45-49 | two rows keyed by title and coordinates share a key exactly when the three stripped cells agree, provided latitude and longitude contain no `|` |
| `Dedup.FallbackKeyAmbiguous` | singapore/dedup_results.py:49 | two different rows (a `|` moved between title and latitude) get the same fallback key |
| `Dedup.CountersAddUp` | singapore/dedup_results.py:36-59 | `rows_total` is the number of rows read and equals `rows_kept + rows_dup + rows_no_key` |
| `Dedup.SeenIsInputKeys` | singapore/dedup_results.py:54-58 | after the loop `seen` is exactly the set of keys occurring in the input |
| `Dedup.KeptIsSeenSize` | singapore/dedup_results.py:58-59 | `rows_kept == len(seen)` |
| `Dedup.StatsOnlySameCounters` | singapore/dedup_results.py:59-61 | with `stats_only` the counters and `seen` equal those of a normal run, and `kept_rows` stays empty |
| `Dedup.CountersCharacterised` | singapore/dedup_results.py:48-59 | `rows_no_key` counts keyless rows, `rows_dup` counts rows whose key appeared earlier, `rows_kept` counts first occurrences |
| `Dedup.FirstIndicesExact` | singapore/dedup_results.py:54-59 | the first-occurrence indices are in range, strictly increasing, and contain exactly the rows whose key no earlier row has |
| `Dedup.KeptAreFirstOccurrences` | singapore/dedup_results.py:54-61 | `kept_rows` is the input rows at the first-occurrence indices, in input order and unchanged |
| `Dedup.KeptKeysDistinct` | singapore/dedup_results.py:54-61 | every kept row has a key, no two kept rows share a key, and the kept rows' keys are exactly `seen` |
| `Dedup.DistinctRowsAllKept` | singapore/dedup_results.py:40-61 | rows that all have keys, pairwise distinct, are all kept with zero duplicates and zero keyless rows |
| `Dedup.DedupIdempotent` | singapore/dedup_results.py:40-61 | deduplicating the kept rows again keeps all of them, with `rows_dup == 0` and `rows_no_key == 0` |
| `Dedup.Deduplicate` | singapore/dedup_results.py:18-61 | fails exactly when the header is empty; otherwise returns the counters and kept rows of `Run`, with `rows_total` equal to the number of rows and to the sum of the other three counters |
| `RayCasting.EdgeAt` | singapore/generate_singapore_grid.py:110-118 | iteration `i` looks at vertex `i` with vertex `i - 1`, or with the last vertex when `i` is 0 |
| `RayCasting.StraddlingEdgeNotHorizontal` | singapore/generate_singapore_grid.py:116 | when `(yi > lat) != (yj > lat)` the denominator `yj - yi` is non-zero |
| `RayCasting.HorizontalEdgeNeverCrosses` | singapore/generate_singapore_grid.py:116 | an edge with `yi == yj` never toggles `inside` |
| `RayCasting.CrossingCountAppend` | singapore/generate_singapore_grid.py:113-117 | the crossing count of a concatenation of edge lists is the sum of their counts |
| `RayCasting.NoStraddleNoCrossing` | singapore/generate_singapore_grid.py:116 | if no edge straddles the point's latitude, no edge is crossed |
| `RayCasting.EmptyPolygonContainsNothing` | singapore/generate_singapore_grid.py:110-119 | the empty polygon contains no point |
| `RayCasting.OneSidedPolygonContainsNothing` | singapore/generate_singapore_grid.py:116 | if every vertex is above the latitude, or none is, no edge is crossed and the point is outside |
| `RayCasting.ClosedEdges` | singapore/generate_singapore_grid.py:110-118 | repeating the first vertex at the end gives a degenerate edge, then the original edges with the closing edge moved to the end |
| `RayCasting.RotatedCount` | singapore/generate_singapore_grid.py:113-117 | prefixing an uncrossed edge and moving the first edge to the end leaves the crossing count unchanged |
| `RayCasting.ClosingVertexIrrelevant` | singapore/generate_singapore_grid.py:108-119 | a polygon closed by repeating its first vertex (as `MAIN_ISLAND` is) has the same crossing count and the same answer as the open one |
| `RayCasting.SentosaExample` | singapore/generate_singapore_grid.py:75-80 | a point in the middle of the `SENTOSA` rectangle is inside; a point east of it is outside |
| `RayCasting.PointInPolygon` | singapore/generate_singapore_grid.py:108-119 | the result is the parity of the number of crossed edges, for the edge order the loop visits |
| `RayCasting.PointInAnyPolygon` | singapore/generate_singapore_grid.py:122-127 | true exactly when some polygon in the list contains the point; so false for an empty list |

## Left out

- The checkpointed batch executor (work-unit list, progress log, worker invocation, retries, aggregation, rate limiting, progress reporting) lives in shell scripts that are not part of this model.
- CSV reading and writing (`csv.DictReader`, `csv.DictWriter`) and the file opens are library I/O. The model takes the parsed header and rows as input and returns the rows that would be written.
- The missing-header exit (`sys.exit(1)` at `dedup_results.py:32-34`) is modelled as an error result, `Err(MissingHeader)`. A header that is `None` and one that is an empty list are both the empty sequence here.
- `csv.DictReader` fills the missing cells of a short row with `None`. The source then fails calling `.strip()` on `None` when that cell is one the key reads: `data_id` (`dedup_results.py:40`) always, or `title`, `latitude` or `longitude` (`dedup_results.py:45-47`) when `data_id` is blank. A short row missing only other columns goes through normally. Rows here are total string maps, so the failing case is not modelled.
- Whether the output file is written at all (`if not stats_only and output_path`) is I/O and is not modelled. The model returns `kept_rows` either way.
- The stats printing and the duplicate-rate percentage (`dedup_results.py:69-78`) are output formatting with float division.
- `generate_grid` steps latitude and longitude in floats and rounds them, using `math.cos` and `math.radians`. Its output depends on floating-point rounding, so it is not modelled.
- `main` in both files is argument parsing and printing.
- The polygon constants are data. Only `SENTOSA` appears, as a concrete example.
- Floating point: the land test uses exact reals, not Python floats. Rounding in its comparison and division is not modelled.
