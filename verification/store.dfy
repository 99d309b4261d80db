/** The page's per-month store: the rows fetched for each month, one entry per
    month, in the order the months were first stored. */
module FanStore {
  import opened Rows

  /** The rows stored for one month. */
  datatype Entry = Entry(month: string, rows: seq<Row>)

  type Store = seq<Entry>

  /** The months that have rows stored. */
  function Months(st: Store): set<string>
  {
    if |st| == 0 then {} else {st[0].month} + Months(st[1..])
  }

  /** No month is stored twice. */
  predicate DistinctMonths(st: Store)
  {
    forall i, j :: 0 <= i < j < |st| ==> st[i].month != st[j].month
  }

  /** The rows stored for `m`, or `None` when the month has none. */
  function Lookup(st: Store, m: string): (r: Option<seq<Row>>)
    ensures r.Some? <==> m in Months(st)
  {
    if |st| == 0 then None
    else if st[0].month == m then Some(st[0].rows)
    else Lookup(st[1..], m)
  }

  /** Storing `data` for month `m`: an earlier entry for `m` is replaced where
      it stands; a new month is added at the end. */
  function Put(st: Store, m: string, data: seq<Row>): (r: Store)
    ensures Lookup(r, m) == Some(data)
    ensures forall m' :: m' != m ==> Lookup(r, m') == Lookup(st, m')
    ensures Months(r) == Months(st) + {m}
    ensures m !in Months(st) ==> r == st + [Entry(m, data)]
    ensures m in Months(st) ==> |r| == |st| && forall i :: 0 <= i < |r| ==> r[i].month == st[i].month
  {
    if |st| == 0 then [Entry(m, data)]
    else if st[0].month == m then [Entry(m, data)] + st[1..]
    else
      assert st == [st[0]] + st[1..];
      [st[0]] + Put(st[1..], m, data)
  }

  /** Storing keeps months distinct. */
  // No automatic induction: the proof is the case split below.
  lemma {:induction false} PutKeepsDistinct(st: Store, m: string, data: seq<Row>)
    requires DistinctMonths(st)
    ensures DistinctMonths(Put(st, m, data))
  {
    var r := Put(st, m, data);
    if m !in Months(st) {
      forall i | 0 <= i < |st| ensures st[i].month != m {
        MonthsHas(st, i);
      }
    }
  }

  /** Every entry's month is among the store's months. */
  lemma {:induction false} MonthsHas(st: Store, i: nat)
    requires i < |st|
    ensures st[i].month in Months(st)
  {
    if i > 0 {
      MonthsHas(st[1..], i - 1);
    }
  }

  /** The first entry for a stored month is the one its lookup returns. */
  lemma {:induction false} LookupAt(st: Store, m: string) returns (i: nat)
    requires m in Months(st)
    ensures i < |st| && st[i].month == m && Lookup(st, m) == Some(st[i].rows)
    ensures forall j :: 0 <= j < i ==> st[j].month != m
  {
    if st[0].month == m {
      i := 0;
    } else {
      var k := LookupAt(st[1..], m);
      i := k + 1;
    }
  }

  /** The months' row lists in store order. Every stored month's rows are
      among them. */
  function Values(st: Store): (vs: seq<seq<Row>>)
    ensures |vs| == |st|
    ensures forall m :: m in Months(st) ==> Lookup(st, m).value in vs
  {
    var vs := seq(|st|, i requires 0 <= i < |st| => st[i].rows);
    assert forall m :: m in Months(st) ==> Lookup(st, m).value in vs by {
      forall m | m in Months(st) ensures Lookup(st, m).value in vs {
        var i := LookupAt(st, m);
        assert vs[i] == st[i].rows;
      }
    }
    vs
  }

  /** With one entry per month, the i-th row list is the rows a lookup of the
      i-th month returns, so the values follow the store's order. */
  lemma ValuesInStoreOrder(st: Store, i: nat)
    requires DistinctMonths(st) && i < |st|
    ensures Lookup(st, st[i].month) == Some(Values(st)[i])
  {
    MonthsHas(st, i);
    var j := LookupAt(st, st[i].month);
    assert j == i;
  }
}
