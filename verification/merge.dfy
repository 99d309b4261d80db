/** The cross-month merge of the page script: group rows by user id, add up
    the levels, keep the first-seen row's other fields, derive the title from
    the summed level and sort by level, highest first. */
module Merge {
  import opened Rows

  /** Levels per title step: a merged row's title is its level divided by this, rounded down. */
  const LevelsPerTitle := 5

  /** The position of the accumulated row for `uid`, if there is one. */
  function Find(acc: seq<Row>, uid: string): (k: Option<nat>)
    ensures k.Some? ==> k.value < |acc| && acc[k.value].userId == uid
    ensures k.None? <==> uid !in IdsOf(acc)
  {
    if |acc| == 0 then None
    else
      var n := |acc| - 1;
      SnocIds(acc[..n], acc[n]);
      assert acc == acc[..n] + [acc[n]];
      if acc[n].userId == uid then Some(n)
      else
        match Find(acc[..n], uid)
        case Some(k) => assert acc[..n][k] == acc[k]; Some(k)
        case None => None
  }

  /** One step of the merge loop: a user seen before has the row's level added
      to their accumulated row; a new user gets a copy of the row appended. */
  function Accumulate(acc: seq<Row>, row: Row): seq<Row>
  {
    match Find(acc, row.userId)
    case Some(k) => acc[k := acc[k].(level := acc[k].level + row.level)]
    case None => acc + [row]
  }

  /** The merge loop run over `rows` in order, starting from no users. */
  function MergeRows(rows: seq<Row>): (r: seq<Row>)
    ensures UniqueIds(r)
    ensures IdsOf(r) == IdsOf(rows)
    ensures forall i :: 0 <= i < |r| ==> MergedFrom(rows, r[i])
  {
    if |rows| == 0 then []
    else
      var s := rows[..|rows| - 1];
      var x := rows[|rows| - 1];
      assert rows == s + [x];
      var acc := MergeRows(s);
      AccumulateStep(s, acc, x);
      Accumulate(acc, x)
  }

  /** One loop step keeps the merge invariant: if `acc` is the merge of `s`,
      then `Accumulate(acc, x)` is the merge of `s + [x]`. */
  lemma AccumulateStep(s: seq<Row>, acc: seq<Row>, x: Row)
    requires UniqueIds(acc)
    requires IdsOf(acc) == IdsOf(s)
    requires forall i :: 0 <= i < |acc| ==> MergedFrom(s, acc[i])
    ensures UniqueIds(Accumulate(acc, x))
    ensures IdsOf(Accumulate(acc, x)) == IdsOf(s + [x])
    ensures forall i :: 0 <= i < |Accumulate(acc, x)| ==> MergedFrom(s + [x], Accumulate(acc, x)[i])
  {
    var r := Accumulate(acc, x);
    match Find(acc, x.userId)
    case Some(k) =>
      assert r == acc[k := acc[k].(level := acc[k].level + x.level)];
      AccumulateSeen(s, acc, x, k);
    case None =>
      assert r == acc + [x];
      AccumulateNew(s, acc, x);
  }

  /** A merged row stays merged when a later row arrives: its level grows by
      that row's level exactly when the row is the same user's. */
  lemma MergedFromSnoc(s: seq<Row>, x: Row, m: Row)
    requires MergedFrom(s, m)
    ensures MergedFrom(s + [x], m.(level := m.level + (if x.userId == m.userId then x.level else 0)))
  {
  }

  /** The step for a user seen before: only that user's row changes. */
  lemma AccumulateSeen(s: seq<Row>, acc: seq<Row>, x: Row, k: nat)
    requires UniqueIds(acc)
    requires IdsOf(acc) == IdsOf(s)
    requires forall i :: 0 <= i < |acc| ==> MergedFrom(s, acc[i])
    requires k < |acc| && acc[k].userId == x.userId
    ensures var r := acc[k := acc[k].(level := acc[k].level + x.level)];
      && UniqueIds(r)
      && IdsOf(r) == IdsOf(s + [x])
      && forall i :: 0 <= i < |r| ==> MergedFrom(s + [x], r[i])
  {
    var r := acc[k := acc[k].(level := acc[k].level + x.level)];
    SnocIds(s, x);
    assert acc[k] in acc;
    assert IdsOf(r) == IdsOf(acc) by {
      forall y | y in acc ensures y.userId in IdsOf(r) {
        var i :| 0 <= i < |acc| && acc[i] == y;
        assert r[i] in r;
      }
      forall y | y in r ensures y.userId in IdsOf(acc) {
        var i :| 0 <= i < |r| && r[i] == y;
        assert acc[i] in acc;
      }
    }
    forall i | 0 <= i < |r| ensures MergedFrom(s + [x], r[i]) {
      MergedFromSnoc(s, x, acc[i]);
    }
  }

  /** The step for a new user: the row is appended as the user's merged row. */
  lemma AccumulateNew(s: seq<Row>, acc: seq<Row>, x: Row)
    requires UniqueIds(acc)
    requires IdsOf(acc) == IdsOf(s)
    requires forall i :: 0 <= i < |acc| ==> MergedFrom(s, acc[i])
    requires x.userId !in IdsOf(acc)
    ensures var r := acc + [x];
      && UniqueIds(r)
      && IdsOf(r) == IdsOf(s + [x])
      && forall i :: 0 <= i < |r| ==> MergedFrom(s + [x], r[i])
  {
    var r := acc + [x];
    SnocIds(s, x);
    SnocIds(acc, x);
    forall i | 0 <= i < |acc| ensures acc[i].userId != x.userId {
      assert acc[i] in acc;
    }
    forall i | 0 <= i < |r| ensures MergedFrom(s + [x], r[i]) {
      if i < |acc| {
        MergedFromSnoc(s, x, acc[i]);
      } else {
        SnocFacts(s, x, x.userId);
        SumForAbsent(s, x.userId);
      }
    }
  }

  /** The merge keeps the level total: no level is lost or counted twice. */
  lemma {:induction false} MergeKeepsTotal(rows: seq<Row>)
    ensures Total(MergeRows(rows)) == Total(rows)
  {
    if |rows| > 0 {
      var s := rows[..|rows| - 1];
      var x := rows[|rows| - 1];
      assert rows == s + [x];
      MergeKeepsTotal(s);
      TotalSnoc(s, x);
      AccumulateTotal(MergeRows(s), x);
    }
  }

  /** Appending a row adds its level to the total. */
  lemma TotalSnoc(s: seq<Row>, x: Row)
    ensures Total(s + [x]) == Total(s) + x.level
  {
    TotalAppend(s, [x]);
    assert [x][1..] == [];
  }

  /** One loop step adds the row's level to the total. */
  lemma AccumulateTotal(acc: seq<Row>, x: Row)
    ensures Total(Accumulate(acc, x)) == Total(acc) + x.level
  {
    match Find(acc, x.userId) {
      case Some(k) =>
        TotalUpdate(acc, k, acc[k].(level := acc[k].level + x.level));
      case None =>
        TotalSnoc(acc, x);
    }
  }

  /** The title pass: every row's title becomes its level divided by five,
      rounded down; nothing else changes. */
  function AssignTitles(s: seq<Row>): (r: seq<Row>)
    ensures |r| == |s|
    ensures forall i :: 0 <= i < |r| ==> r[i] == s[i].(titleId := r[i].titleId)
    ensures forall i :: 0 <= i < |r| ==>
      LevelsPerTitle * r[i].titleId <= r[i].level < LevelsPerTitle * r[i].titleId + LevelsPerTitle
  {
    seq(|s|, i requires 0 <= i < |s| => s[i].(titleId := s[i].level / LevelsPerTitle))
  }

  /** `x` placed into the level-sorted `s` ahead of the rows it does not trail. */
  function Insert(x: Row, s: seq<Row>): (r: seq<Row>)
    requires SortedDesc(s)
    ensures SortedDesc(r)
    ensures multiset(r) == multiset(s) + multiset{x}
  {
    if |s| == 0 then [x]
    else if x.level >= s[0].level then [x] + s
    else
      var t := Insert(x, s[1..]);
      InsertBelowHead(x, s, t);
      assert s == [s[0]] + s[1..];
      [s[0]] + t
  }

  /** Every row of `t`, a permutation of `s[1..]` plus `x`, trails `s[0]` when `x` does. */
  lemma InsertBelowHead(x: Row, s: seq<Row>, t: seq<Row>)
    requires |s| > 0 && SortedDesc(s) && x.level < s[0].level
    requires multiset(t) == multiset(s[1..]) + multiset{x}
    ensures forall j :: 0 <= j < |t| ==> t[j].level <= s[0].level
  {
    forall j | 0 <= j < |t| ensures t[j].level <= s[0].level {
      assert t[j] in multiset(t);
      if t[j] != x {
        assert t[j] in multiset(s[1..]);
        var k :| 0 <= k < |s[1..]| && s[1..][k] == t[j];
        assert s[k + 1] == t[j];
      }
    }
  }

  /** The page's sort: rows ordered by level, highest first. */
  function SortByLevel(s: seq<Row>): (r: seq<Row>)
    ensures SortedDesc(r)
    ensures multiset(r) == multiset(s)
  {
    if |s| == 0 then []
    else
      assert s == [s[0]] + s[1..];
      Insert(s[0], SortByLevel(s[1..]))
  }

  /** The rows of all months, month after month, in order. */
  function Flatten(months: seq<seq<Row>>): seq<Row>
  {
    if |months| == 0 then [] else months[0] + Flatten(months[1..])
  }

  /** The sum of `uid`'s levels month by month. */
  function MonthlySum(months: seq<seq<Row>>, uid: string): int
  {
    if |months| == 0 then 0 else SumFor(months[0], uid) + MonthlySum(months[1..], uid)
  }

  /** The flattened rows carry, per user, the sum over all months. */
  lemma {:induction false} FlattenSum(months: seq<seq<Row>>, uid: string)
    ensures SumFor(Flatten(months), uid) == MonthlySum(months, uid)
  {
    if |months| > 0 {
      SumForAppend(months[0], Flatten(months[1..]), uid);
      FlattenSum(months[1..], uid);
    }
  }

  /** The merged array of the page: the months' rows merged by user, titled and
      sorted by level. */
  function MergedArray(months: seq<seq<Row>>): seq<Row>
  {
    SortByLevel(AssignTitles(MergeRows(Flatten(months))))
  }

  /** A row of the merged array for `m.userId`: the first-seen row's avatar,
      name and id, the user's level summed over all months, and the title
      derived from that sum. */
  predicate TitledMerge(months: seq<seq<Row>>, m: Row)
  {
    var rows := Flatten(months);
    m.userId in IdsOf(rows) &&
    var first := rows[FirstIndex(rows, m.userId)];
    && m.avatarId == first.avatarId
    && m.userName == first.userName
    && m.level == MonthlySum(months, m.userId)
    && m.titleId == m.level / LevelsPerTitle
  }

  /** Everything the page relies on about the merged array: one row per user who
      appears in any month, each built by the first-seen/sum rule, the level
      total preserved, and the rows sorted by level, highest first. */
  lemma MergedArraySpec(months: seq<seq<Row>>)
    ensures var r := MergedArray(months);
      && SortedDesc(r)
      && UniqueIds(r)
      && IdsOf(r) == IdsOf(Flatten(months))
      && (forall i :: 0 <= i < |r| ==> TitledMerge(months, r[i]))
      && Total(r) == Total(Flatten(months))
  {
    var rows := Flatten(months);
    var m := MergeRows(rows);
    var t := AssignTitles(m);
    var r := SortByLevel(t);
    TitledRows(months);
    SortKeepsUniqueIds(t);
    SameElements(r, t);
    forall i | 0 <= i < |r| ensures TitledMerge(months, r[i]) {
      assert r[i] in r;
    }
    MergeKeepsTotal(rows);
    TotalPermutation(r, t);
    TitlesKeepTotal(m);
  }

  /** The merged rows after the title pass: still one per user, each one a
      `TitledMerge` of the months. */
  lemma TitledRows(months: seq<seq<Row>>)
    ensures var t := AssignTitles(MergeRows(Flatten(months)));
      && UniqueIds(t)
      && IdsOf(t) == IdsOf(Flatten(months))
      && forall y :: y in t ==> TitledMerge(months, y)
  {
    var rows := Flatten(months);
    var m := MergeRows(rows);
    var t := AssignTitles(m);
    assert IdsOf(t) == IdsOf(m) by {
      forall y | y in m ensures y.userId in IdsOf(t) {
        var i :| 0 <= i < |m| && m[i] == y;
        assert t[i] in t;
      }
      forall y | y in t ensures y.userId in IdsOf(m) {
        var i :| 0 <= i < |t| && t[i] == y;
        assert m[i] in m;
      }
    }
    forall y | y in t ensures TitledMerge(months, y) {
      var i :| 0 <= i < |t| && t[i] == y;
      assert MergedFrom(rows, m[i]);
      FlattenSum(months, y.userId);
    }
  }

  /** Two sequences with the same multiset have the same elements and user ids. */
  lemma SameElements(a: seq<Row>, b: seq<Row>)
    requires multiset(a) == multiset(b)
    ensures forall y :: y in a <==> y in b
    ensures IdsOf(a) == IdsOf(b)
  {
    forall y ensures y in a <==> y in b {
      assert y in a <==> y in multiset(a);
      assert y in b <==> y in multiset(b);
    }
  }

  /** Assigning titles leaves the level total alone. */
  lemma {:induction false} TitlesKeepTotal(s: seq<Row>)
    ensures Total(AssignTitles(s)) == Total(s)
  {
    if |s| > 0 {
      assert AssignTitles(s)[1..] == AssignTitles(s[1..]);
      TitlesKeepTotal(s[1..]);
    }
  }

  /** Sorting a user-unique sequence leaves it user-unique. */
  lemma {:induction false} SortKeepsUniqueIds(s: seq<Row>)
    requires UniqueIds(s)
    ensures UniqueIds(SortByLevel(s))
  {
    if |s| > 0 {
      var t := SortByLevel(s[1..]);
      SortKeepsUniqueIds(s[1..]);
      assert s[0].userId !in IdsOf(t) by {
        forall y | y in t ensures y.userId != s[0].userId {
          assert y in multiset(t);
          var j :| 0 <= j < |s[1..]| && s[1..][j] == y;
          assert s[j + 1] == y;
        }
      }
      InsertKeepsUniqueIds(s[0], t);
    }
  }

  /** Inserting a row of a new user keeps a sorted sequence user-unique. */
  lemma {:induction false} InsertKeepsUniqueIds(x: Row, s: seq<Row>)
    requires SortedDesc(s)
    requires UniqueIds(s)
    requires x.userId !in IdsOf(s)
    ensures UniqueIds(Insert(x, s))
  {
    if |s| > 0 && x.level < s[0].level {
      var t := Insert(x, s[1..]);
      assert x.userId !in IdsOf(s[1..]) by {
        forall y | y in s[1..] ensures y in s { }
      }
      InsertKeepsUniqueIds(x, s[1..]);
      forall y | y in t ensures y.userId != s[0].userId {
        assert y in multiset(t);
        if y != x {
          var j :| 0 <= j < |s[1..]| && s[1..][j] == y;
          assert s[j + 1] == y;
        } else {
          assert s[0] in s;
        }
      }
      forall j | 0 < j < |[s[0]] + t| ensures ([s[0]] + t)[j].userId != s[0].userId {
        assert t[j - 1] in t;
      }
    } else if |s| > 0 {
      forall j | 0 < j < |[x] + s| ensures ([x] + s)[j].userId != x.userId {
        assert s[j - 1] in s;
      }
    }
  }
}
