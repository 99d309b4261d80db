/** Fan-level records as the page holds them, and the bookkeeping functions the
    merge, the sort and the ranking are specified with. */
module Rows {

  datatype Option<T> = None | Some(value: T)

  /** One fan's record: avatar, fan level, title, user id and display name. */
  datatype Row = Row(avatarId: string, level: int, titleId: int, userId: string, userName: string)

  /** The user ids that occur in `s`. */
  function IdsOf(s: seq<Row>): set<string>
  {
    set x | x in s :: x.userId
  }

  /** No user id occurs twice in `s`. */
  predicate UniqueIds(s: seq<Row>)
  {
    forall i, j :: 0 <= i < j < |s| ==> s[i].userId != s[j].userId
  }

  /** Levels never increase from one row to the next. */
  predicate SortedDesc(s: seq<Row>)
  {
    forall i, j :: 0 <= i < j < |s| ==> s[i].level >= s[j].level
  }

  /** The sum of the levels of the rows of `s` that belong to `uid`. */
  function SumFor(s: seq<Row>, uid: string): int
  {
    if |s| == 0 then 0
    else SumFor(s[..|s| - 1], uid) + (if s[|s| - 1].userId == uid then s[|s| - 1].level else 0)
  }

  /** The sum of all levels in `s`. */
  function Total(s: seq<Row>): int
  {
    if |s| == 0 then 0 else s[0].level + Total(s[1..])
  }

  /** The position of the first row of `s` that belongs to `uid`. */
  function FirstIndex(s: seq<Row>, uid: string): (k: nat)
    requires uid in IdsOf(s)
    ensures k < |s| && s[k].userId == uid
    ensures forall j :: 0 <= j < k ==> s[j].userId != uid
  {
    var n := |s| - 1;
    SnocIds(s[..n], s[n]);
    assert s == s[..n] + [s[n]];
    if uid in IdsOf(s[..n]) then
      var k := FirstIndex(s[..n], uid);
      assert s[..n][k] == s[k];
      k
    else
      assert forall j :: 0 <= j < n ==> s[j] == s[..n][j];
      n
  }

  /** The merged row for `m.userId` as the first-seen-copy rule builds it: every
      field copied from the first row of `s` for that user, except the level,
      which is the sum of that user's levels over all of `s`. */
  predicate MergedFrom(s: seq<Row>, m: Row)
  {
    m.userId in IdsOf(s) &&
    m == s[FirstIndex(s, m.userId)].(level := SumFor(s, m.userId))
  }

  /** Appending a row adds exactly its user id. */
  lemma SnocIds(s: seq<Row>, x: Row)
    ensures IdsOf(s + [x]) == IdsOf(s) + {x.userId}
  {
  }

  /** The facts about `s + [x]` that unfolding the last-element recursions gives. */
  lemma SnocFacts(s: seq<Row>, x: Row, uid: string)
    ensures (s + [x])[..|s|] == s
    ensures SumFor(s + [x], uid) == SumFor(s, uid) + (if x.userId == uid then x.level else 0)
    ensures uid in IdsOf(s) ==> FirstIndex(s + [x], uid) == FirstIndex(s, uid)
    ensures uid !in IdsOf(s) && uid == x.userId ==> FirstIndex(s + [x], uid) == |s|
  {
  }

  /** A user who has no row has level sum zero. */
  lemma {:induction false} SumForAbsent(s: seq<Row>, uid: string)
    requires uid !in IdsOf(s)
    ensures SumFor(s, uid) == 0
  {
    if |s| > 0 {
      var n := |s| - 1;
      SnocIds(s[..n], s[n]);
      assert s == s[..n] + [s[n]];
      SumForAbsent(s[..n], uid);
    }
  }

  /** Per-user level sums distribute over concatenation. */
  lemma {:induction false} SumForAppend(a: seq<Row>, b: seq<Row>, uid: string)
    ensures SumFor(a + b, uid) == SumFor(a, uid) + SumFor(b, uid)
  {
    if |b| > 0 {
      var n := |b| - 1;
      assert (a + b)[..|a + b| - 1] == a + b[..n];
      SumForAppend(a, b[..n], uid);
    } else {
      assert a + b == a;
    }
  }

  /** The level total distributes over concatenation. */
  lemma {:induction false} TotalAppend(a: seq<Row>, b: seq<Row>)
    ensures Total(a + b) == Total(a) + Total(b)
  {
    if |a| > 0 {
      assert (a + b)[1..] == a[1..] + b;
      TotalAppend(a[1..], b);
    } else {
      assert a + b == b;
    }
  }

  /** Replacing one row changes the total by the difference of the two levels. */
  lemma {:induction false} TotalUpdate(s: seq<Row>, k: nat, y: Row)
    requires k < |s|
    ensures Total(s[k := y]) == Total(s) - s[k].level + y.level
  {
    if k > 0 {
      assert s[k := y][1..] == s[1..][k - 1 := y];
      TotalUpdate(s[1..], k - 1, y);
    } else {
      assert s[k := y][1..] == s[1..];
    }
  }

  /** The level total depends only on the multiset of rows. */
  lemma {:induction false} TotalPermutation(a: seq<Row>, b: seq<Row>)
    requires multiset(a) == multiset(b)
    ensures Total(a) == Total(b)
    decreases |a|
  {
    if |a| > 0 {
      var x := a[0];
      assert x in multiset(b);
      var k :| 0 <= k < |b| && b[k] == x;
      var rest := b[..k] + b[k + 1..];
      assert b == b[..k] + [x] + b[k + 1..];
      assert a == [x] + a[1..];
      assert multiset(b) == multiset(b[..k]) + multiset{x} + multiset(b[k + 1..]);
      assert multiset(a) == multiset{x} + multiset(a[1..]);
      assert multiset(rest) == multiset(b[..k]) + multiset(b[k + 1..]);
      assert multiset(a[1..]) == multiset(a) - multiset{x};
      assert multiset(rest) == multiset(b) - multiset{x};
      TotalPermutation(a[1..], rest);
      TotalAppend(b[..k] + [x], b[k + 1..]);
      TotalAppend(b[..k], [x]);
      TotalAppend(b[..k], b[k + 1..]);
      assert Total([x]) == x.level by {
        assert [x][1..] == [];
      }
    } else {
      assert |b| == |multiset(b)| == 0;
    }
  }
}
