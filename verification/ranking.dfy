/** Competition ranking of the merged, level-sorted rows and the cut-off of
    the on-page table after rank 100. */
module Ranking {
  import opened Rows

  /** The last rank the table shows. */
  const MaxRank := 100

  /** A row of the on-page table: rank, avatar, summed level and name. */
  datatype DisplayRow = DisplayRow(rank: int, avatarId: string, level: int, userName: string)

  /** The table row for `row` at `rank`. */
  function Shown(row: Row, rank: int): DisplayRow
  {
    DisplayRow(rank, row.avatarId, row.level, row.userName)
  }

  /** The rank the page's loop gives position `i`: the 1-based position when
      the level differs from the row before (or there is no row before),
      otherwise the rank of the row before. */
  function RankAt(rows: seq<Row>, i: nat): (rank: nat)
    requires i < |rows|
    ensures 1 <= rank <= i + 1
    ensures i == 0 ==> rank == 1
  {
    if i == 0 || rows[i].level != rows[i - 1].level then i + 1 else RankAt(rows, i - 1)
  }

  /** The number of rows whose level is strictly above `v`. */
  function CountAbove(rows: seq<Row>, v: int): nat
  {
    if |rows| == 0 then 0
    else (if rows[0].level > v then 1 else 0) + CountAbove(rows[1..], v)
  }

  /** Ranks never decrease along the sequence, whatever the levels. */
  lemma {:induction false} RankMonotone(rows: seq<Row>, i: nat, j: nat)
    requires i <= j < |rows|
    ensures RankAt(rows, i) <= RankAt(rows, j)
    decreases j
  {
    if i < j && rows[j].level == rows[j - 1].level {
      RankMonotone(rows, i, j - 1);
    }
  }

  /** When the first `k` rows lie above `v` and the rest do not, exactly `k`
      rows lie above `v`. */
  lemma {:induction false} CountAboveCut(rows: seq<Row>, v: int, k: nat)
    requires k <= |rows|
    requires forall j :: 0 <= j < k ==> rows[j].level > v
    requires forall j :: k <= j < |rows| ==> rows[j].level <= v
    ensures CountAbove(rows, v) == k
  {
    if |rows| > 0 {
      if k > 0 {
        CountAboveCut(rows[1..], v, k - 1);
      } else {
        CountAboveCut(rows[1..], v, 0);
      }
    }
  }

  /** On level-sorted rows the loop's rank is the competition rank: one more
      than the number of rows with a strictly higher level. */
  lemma {:induction false} RankIsCompetitionRank(rows: seq<Row>, i: nat)
    requires SortedDesc(rows)
    requires i < |rows|
    ensures RankAt(rows, i) == 1 + CountAbove(rows, rows[i].level)
  {
    if i == 0 || rows[i].level != rows[i - 1].level {
      CountAboveCut(rows, rows[i].level, i);
    } else {
      RankIsCompetitionRank(rows, i - 1);
    }
  }

  /** A row at level `u` lies above every `v` below `u` but not above `u`
      itself, so strictly fewer rows lie above `u` than above `v`. */
  lemma {:induction false} CountAboveStrict(rows: seq<Row>, u: int, v: int, i: nat)
    requires v < u
    requires i < |rows| && rows[i].level == u
    ensures CountAbove(rows, u) < CountAbove(rows, v)
  {
    if i > 0 {
      CountAboveStrict(rows[1..], u, v, i - 1);
    } else {
      CountAboveMonotone(rows[1..], u, v);
    }
  }

  /** Fewer rows lie above a higher level. */
  lemma {:induction false} CountAboveMonotone(rows: seq<Row>, u: int, v: int)
    requires v <= u
    ensures CountAbove(rows, u) <= CountAbove(rows, v)
  {
    if |rows| > 0 {
      CountAboveMonotone(rows[1..], u, v);
    }
  }

  /** `RankIsCompetitionRank` for every position at once. */
  lemma CompetitionRanks(rows: seq<Row>)
    requires SortedDesc(rows)
    ensures forall k :: 0 <= k < |rows| ==> RankAt(rows, k) == 1 + CountAbove(rows, rows[k].level)
  {
    forall k | 0 <= k < |rows| ensures RankAt(rows, k) == 1 + CountAbove(rows, rows[k].level) {
      RankIsCompetitionRank(rows, k);
    }
  }

  /** On level-sorted rows two positions share a rank exactly when they share
      a level. */
  // No automatic induction: the proof is the lemma calls below, and induction on `rows` only slows the solver.
  lemma {:induction false} TiesShareRank(rows: seq<Row>, i: nat, j: nat)
    requires SortedDesc(rows)
    requires i < |rows| && j < |rows|
    ensures RankAt(rows, i) == RankAt(rows, j) <==> rows[i].level == rows[j].level
  {
    RankIsCompetitionRank(rows, i);
    RankIsCompetitionRank(rows, j);
    if rows[i].level < rows[j].level {
      CountAboveStrict(rows, rows[j].level, rows[i].level, j);
    } else if rows[j].level < rows[i].level {
      CountAboveStrict(rows, rows[i].level, rows[j].level, i);
    }
  }

  /** On level-sorted rows a position is within the shown ranks exactly when
      fewer than `MaxRank` rows have a strictly higher level. */
  // No automatic induction: the proof is the lemma calls below, and induction on `rows` only slows the solver.
  lemma {:induction false} ShownIffFewAbove(rows: seq<Row>, i: nat)
    requires SortedDesc(rows)
    requires i < |rows|
    ensures RankAt(rows, i) <= MaxRank <==> CountAbove(rows, rows[i].level) < MaxRank
  {
    RankIsCompetitionRank(rows, i);
  }

  /** Rows that all share one level all get rank 1, so with enough of them the
      table shows more than `MaxRank` rows. */
  lemma {:induction false} AllTiedRankOne(rows: seq<Row>, i: nat)
    requires forall j :: 0 <= j < |rows| ==> rows[j].level == rows[0].level
    requires i < |rows|
    ensures RankAt(rows, i) == 1
  {
    if i > 0 {
      AllTiedRankOne(rows, i - 1);
    }
  }

  /** `display` is the ranked table of the level-sorted `rows`: row `k` shown
      with its competition rank, and exactly the rows with fewer than
      `MaxRank` rows strictly above them shown, as a prefix. */
  predicate IsRankedTable(rows: seq<Row>, display: seq<DisplayRow>)
  {
    && |display| <= |rows|
    && (forall k :: 0 <= k < |display| ==>
          display[k] == Shown(rows[k], 1 + CountAbove(rows, rows[k].level)))
    && (forall k :: 0 <= k < |rows| ==>
          (k < |display| <==> CountAbove(rows, rows[k].level) < MaxRank))
  }

  /** The page's ranking loop: walk the rows, keep the last level and rank
      seen, stop at the first rank past `MaxRank`, and emit a table row for
      every row before it. */
  method RankTop(rows: seq<Row>) returns (display: seq<DisplayRow>)
    ensures |display| <= |rows|
    ensures forall k :: 0 <= k < |display| ==> display[k] == Shown(rows[k], RankAt(rows, k))
    ensures forall k :: 0 <= k < |rows| ==> (k < |display| <==> RankAt(rows, k) <= MaxRank)
  {
    display := [];
    var lastLevel: Option<int> := None;
    var lastRank := 0;
    var i := 0;
    while i < |rows|
      invariant 0 <= i <= |rows|
      invariant |display| == i
      invariant forall k :: 0 <= k < i ==> display[k] == Shown(rows[k], RankAt(rows, k))
      invariant forall k :: 0 <= k < i ==> RankAt(rows, k) <= MaxRank
      invariant i == 0 ==> lastLevel == None
      invariant i > 0 ==> lastLevel == Some(rows[i - 1].level) && lastRank == RankAt(rows, i - 1)
    {
      var row := rows[i];
      if lastLevel != Some(row.level) {
        lastRank := i + 1;
        lastLevel := Some(row.level);
      }
      if lastRank > MaxRank {
        forall k | i <= k < |rows| ensures RankAt(rows, k) > MaxRank {
          RankMonotone(rows, i, k);
        }
        break;
      }
      display := display + [Shown(row, lastRank)];
      i := i + 1;
    }
  }
}
