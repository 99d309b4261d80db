# Showroom fan-list merge, ranking and CSV export — a Dafny model

The Showroom Data Fetcher page keeps the fan-level rows fetched for each month
of a room. Every row has an `avatar_id`, a `level`, a `title_id`, a `user_id`
and a `user_name`. From these rows the page builds two things:

- an archive with one CSV file per month and one `merged.csv`;
- an on-page table of the top-ranked fans.

Both outputs use the same cross-month merge:

- rows are grouped by `user_id`;
- a user's levels are summed over all months;
- the first-seen row of each user supplies the avatar and the name;
- `title_id` is recomputed as the summed level divided by 5, rounded down;
- the merged rows are sorted by level, highest first.

The table then gives each row a competition rank (tied levels share a rank, and
the next level's rank is its 1-based position). It stops at the first rank past
100.

The model is made of pure functions over `seq` plus lemmas. The ranking loop is
also modelled as a method with loop invariants.

| module | file | what it holds |
|---|---|---|
| `Rows` | rows.dfy | the `Row` record; per-user level sums, level totals, first occurrence, the `MergedFrom` characterisation of a merged row |
| `FanStore` | store.dfy | the per-month store and how a month's rows are stored |
| `Merge` | merge.dfy | the merge loop, the title pass, the level sort, the merged array |
| `Ranking` | ranking.dfy | the loop's rank rule, competition rank, the top-100 cut-off |
| `Csv` | csv.dfy | header, line and text rendering, number printing, and a decoder used as the rendering's inverse |
| `FanApp` | app.dfy | the archive, the table and the fetch handler |

The page computes the merge twice, once for the archive and once for the
table, with identical code. The model defines it once, as `Merge.MergedArray`,
and both consumers use that definition. `FanApp.CreateMergeAndShow` also states
that, for clean input, every table row shows the avatar, level and name of the
`merged.csv` row at the same position.

Notes on the source:

- The merge keeps the first-seen row of each user: `if (!merged[row.user_id])`
  copies a row only the first time a user appears. The ranking gives standard
  competition ranks, which skip after ties (`lastRank = i + 1`).
- `Math.floor(level / 5)` is modelled as Dafny's `level / 5`. Dafny's division
  by a positive divisor rounds down, including for negative levels.
  `Merge.AssignTitles` states the rounding as `5*t <= level < 5*t + 5`.

## Model

| member | source | states |
|---|---|---|
| FanStore.Put | showroom_fans_app.py:81 | storing a month's rows makes a later lookup of that month return exactly those rows; every other month is unchanged; a known month keeps its place and a new month goes at the end |
| FanStore.PutKeepsDistinct | showroom_fans_app.py:70-81 | storing keeps the store free of repeated months, as the page's month-keyed object is |
| Merge.Find | showroom_fans_app.py:104 | the lookup of a user's accumulated row finds a row for that user, and finds none exactly when the user has not been seen |
| Merge.MergeRows | showroom_fans_app.py:101-110 | the merge holds one row per user; the users are exactly those of the input; each row is the user's first input row with the level replaced by the sum of that user's levels |
| Merge.AccumulateStep | showroom_fans_app.py:103-109 | one loop step turns the merge of the rows so far into the merge of those rows plus the next one |
| Merge.MergedFromSnoc | showroom_fans_app.py:105-107 | when a later row arrives, a merged row changes only in its level, and only if the row is the same user's |
| Merge.MergeKeepsTotal | showroom_fans_app.py:104-108 | the total of merged levels equals the total of input levels |
| Merge.FlattenSum | showroom_fans_app.py:102-103 | a user's sum over the rows of all months, taken month after month, is the sum of that user's per-month sums |
| Merge.AssignTitles | showroom_fans_app.py:112-114 | each row's title becomes its level divided by 5, rounded down, whatever the title was before; no other field changes |
| Merge.TitlesKeepTotal | showroom_fans_app.py:112-114 | the title pass leaves the level total unchanged |
| Merge.Insert | showroom_fans_app.py:115 | inserting into a level-sorted sequence keeps it sorted, highest level first, and adds exactly the one row |
| Merge.SortByLevel | showroom_fans_app.py:115 | the sorted array is a permutation of its input and its levels never increase |
| Merge.SortKeepsUniqueIds | showroom_fans_app.py:115 | sorting keeps one row per user |
| Merge.MergedArraySpec | showroom_fans_app.py:101-115 | the merged array is sorted by level and holds one row per user of any month; each row has the first-seen avatar and name, the level summed over all months, and title = level div 5; level totals are preserved |
| Ranking.RankAt | showroom_fans_app.py:151-156 | the loop's rank is at least 1 and at most the 1-based position, and the first row gets rank 1 |
| Ranking.RankMonotone | showroom_fans_app.py:151-156 | ranks never decrease along the array, whatever the levels |
| Ranking.RankIsCompetitionRank | showroom_fans_app.py:151-156 | on level-sorted rows the loop's rank is 1 plus the number of rows with a strictly higher level |
| Ranking.CompetitionRanks | showroom_fans_app.py:151-156 | the same competition-rank identity, for every position at once |
| Ranking.TiesShareRank | showroom_fans_app.py:153-155 | on level-sorted rows two positions have the same rank if and only if they have the same level |
| Ranking.ShownIffFewAbove | showroom_fans_app.py:157 | on level-sorted rows a position is within rank 100 exactly when fewer than 100 rows have a strictly higher level |
| Ranking.AllTiedRankOne | showroom_fans_app.py:153-157 | rows that all share one level all get rank 1, so the table can hold more than 100 rows |
| Ranking.RankTop | showroom_fans_app.py:146-165 | the table is a prefix of the array; row k shows row k's avatar, level and name with the loop's rank; row k is shown exactly when its rank is at most 100, so the table stops at the first rank past 100 |
| Csv.SplitJoin | showroom_fans_app.py:93-97 | cutting a joined text at the separator gives back the parts when no part holds the separator |
| Csv.ParseIntToString | showroom_fans_app.py:95 | the decimal text printed for a level or title reads back as the same integer |
| Csv.LineRoundTrip | showroom_fans_app.py:95 | a row's line (avatar_id, level, title_id, user_id, user_name, comma-joined) reads back as that row if and only if its text fields hold no comma |
| Csv.TextLines | showroom_fans_app.py:92-97 | for rows whose text fields hold no newline, the CSV text is the header line, then one line per row, newline-joined; it has exactly one line more than there are rows, so no empty line follows a trailing newline |
| Csv.TextRoundTrip | showroom_fans_app.py:117-122 | a CSV text reads back as exactly the rows it was written from when no text field holds a comma or a newline |
| FanApp.CreateZip | showroom_fans_app.py:87-122 | the archive has one file per stored month, named after the month and in store order, then `merged.csv` |
| FanApp.ZipReadsBack | showroom_fans_app.py:91-122 | each month's file reads back as that month's rows, and `merged.csv` reads back as the merged array |
| FanApp.MergedClean | showroom_fans_app.py:105 | merged rows take their text fields from input rows, so they are clean when the input is |
| FanApp.CreateMergeAndShow | showroom_fans_app.py:128-165 | the table shows the merged rows in order, each with its competition rank, and exactly those with fewer than 100 users strictly above; with clean input each table row matches the `merged.csv` row at the same position |
| FanApp.OnFetch | showroom_fans_app.py:73-85 | on a store with one entry per month, after a fetch the store holds the new rows for that month and keeps the others, its months are the old ones plus the fetched month, and it still has one entry per month; the archive and the ranked table are rebuilt from the new store |

## Left out

- DOM access, event wiring, the HTML table markup, the avatar image URL and the download button are page plumbing. They are not modelled.
- JSZip archive creation, `generateAsync`, `Blob` and object URLs are an external library and asynchronous I/O. The archive is modelled as a sequence of (name, content) files.
- The hard-coded dummy rows are not modelled. Rows are an input to `FanApp.OnFetch`.
- JavaScript enumerates integer-like object keys (such as `"202501"`) in ascending numeric order, not in insertion order. The model takes months in the store's sequence order: insertion order, with a replaced month keeping its place. The first-seen identity depends on this order. The merged rows are kept in first-seen user order, while `Object.values(merged)` lists integer-like user ids (such as `"100"`) first, in ascending numeric order. The page's sort is stable, so among rows with equal levels the order in `merged.csv` and in the table differs from the model's when user ids are integer-like.
- Merge.MergeRows: `merged` is a plain object, so `merged[row.user_id]` also finds inherited `Object.prototype` members. A user id such as `"constructor"`, `"toString"`, `"valueOf"`, `"hasOwnProperty"` or `"__proto__"` therefore takes the else branch, adds its level to that inherited member, and never appears in `merged.csv` or the table. The model treats these ids as ordinary keys and keeps the user, because modelling the prototype chain (and the pollution it causes) is outside this model.
- Merge.SortByLevel: the order of rows with equal levels is not specified. The model states sortedness and permutation only. Its own insertion sort happens to be stable.
- Levels and titles are JavaScript numbers. The model uses unbounded integers. It omits fractional levels, `-0`, the rounding of sums past 2^53 − 1 (`Number.MAX_SAFE_INTEGER`), where the page's `level += row.level` loses precision and its summed level and title differ from the exact sum, and the exponent notation JavaScript uses when printing integers of 10^21 or more.
- No CSV quoting or escaping is modelled, because the page does none. Csv.LineRoundTrip shows that a comma in a text field breaks the column structure. The read-back lemmas therefore assume comma- and newline-free text fields.
- The unused `count` variable of the ranking loop is not modelled.
- FanApp.OnFetch: the model runs a click as one atomic step (store, archive, table). The page's handler awaits `createZip()`, and `createZip` awaits `zip.generateAsync` (showroom_fans_app.py:124) after its merge has read `fetchedData`. A second click can run its own `fetchedData[month] = data` in that pause. The first click's table is then merged from a store that holds the second month, while its archive does not. If the second archive finishes first, the first click's assignment leaves `zipBlob` holding the older archive. The downloaded `merged.csv` can then lack a month the table shows. FanApp.CreateMergeAndShow's agreement with `merged.csv` holds only for archives and tables built from the same store.
- FanApp.CreateZip: file names are stated, and the contents are tied to the rows by FanApp.ZipReadsBack only for clean input.
