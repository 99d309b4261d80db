/** The page's two consumers of the store: the archive of per-month and merged
    CSV files, and the ranked top-100 table. Both take the merged array from
    `Merge.MergedArray`, the one definition of the cross-month merge. */
module FanApp {
  import opened Rows
  import opened FanStore
  import opened Merge
  import opened Ranking
  import opened Csv

  /** One file of the archive. */
  datatype ArchiveFile = ArchiveFile(name: string, content: string)

  const MergedFileName := "merged.csv"

  /** Rows whose free-text fields hold neither CSV separator. */
  predicate CleanRows(rows: seq<Row>)
  {
    forall j :: 0 <= j < |rows| ==> NoComma(rows[j]) && NoNewline(rows[j])
  }

  /** Every stored month's rows are clean. */
  predicate CleanStore(st: Store)
  {
    forall i :: 0 <= i < |st| ==> CleanRows(st[i].rows)
  }

  /** The file for one stored month. */
  function MonthFile(e: Entry): ArchiveFile
  {
    ArchiveFile(e.month + ".csv", Text(e.rows))
  }

  /** The archive contents: one CSV per stored month, in store order, then the
      merged CSV. */
  function CreateZip(st: Store): (files: seq<ArchiveFile>)
    ensures |files| == |st| + 1
    ensures forall i :: 0 <= i < |st| ==> files[i].name == st[i].month + ".csv"
    ensures files[|st|].name == MergedFileName
  {
    seq(|st|, i requires 0 <= i < |st| => MonthFile(st[i])) +
      [ArchiveFile(MergedFileName, MergedCsv(st))]
  }

  /** The merged CSV text. */
  function MergedCsv(st: Store): string
  {
    Text(MergedArray(Values(st)))
  }

  /** The rows of all months are clean when every month's are. */
  lemma {:induction false} FlattenClean(months: seq<seq<Row>>)
    requires forall i :: 0 <= i < |months| ==> CleanRows(months[i])
    ensures CleanRows(Flatten(months))
  {
    if |months| > 0 {
      FlattenClean(months[1..]);
      var f := Flatten(months);
      forall j | 0 <= j < |f| ensures NoComma(f[j]) && NoNewline(f[j]) {
        if j >= |months[0]| {
          assert f[j] == Flatten(months[1..])[j - |months[0]|];
        }
      }
    }
  }

  /** Merged rows take their text fields from input rows, so they are clean
      when the input is. */
  lemma MergedClean(st: Store)
    requires CleanStore(st)
    ensures CleanRows(MergedArray(Values(st)))
  {
    var months := Values(st);
    var rows := Flatten(months);
    FlattenClean(months);
    MergedArraySpec(months);
    var r := MergedArray(months);
    forall k | 0 <= k < |r| ensures NoComma(r[k]) && NoNewline(r[k]) {
      assert TitledMerge(months, r[k]);
      var f := FirstIndex(rows, r[k].userId);
      assert NoComma(rows[f]) && NoNewline(rows[f]);
    }
  }

  /** Every file of the archive reads back as the rows it was written from:
      each month's file as that month's rows, and the merged file as the
      merged array. */
  lemma ZipReadsBack(st: Store)
    requires CleanStore(st)
    ensures forall i :: 0 <= i < |st| ==> DecodeText(CreateZip(st)[i].content) == Some(st[i].rows)
    ensures DecodeText(CreateZip(st)[|st|].content) == Some(MergedArray(Values(st)))
  {
    var files := CreateZip(st);
    forall i | 0 <= i < |st| ensures DecodeText(files[i].content) == Some(st[i].rows) {
      TextRoundTrip(st[i].rows);
    }
    MergedCsvReadsBack(st);
  }

  /** The merged file reads back as the merged array. */
  lemma MergedCsvReadsBack(st: Store)
    requires CleanStore(st)
    ensures DecodeText(MergedCsv(st)) == Some(MergedArray(Values(st)))
  {
    MergedClean(st);
    TextRoundTrip(MergedArray(Values(st)));
  }

  /** Each table row shows the avatar, level and name of the CSV row at the
      same position. */
  predicate AgreesWithCsv(display: seq<DisplayRow>, csv: Option<seq<Row>>)
  {
    && csv.Some?
    && |display| <= |csv.value|
    && forall k :: 0 <= k < |display| ==>
         && display[k].avatarId == csv.value[k].avatarId
         && display[k].level == csv.value[k].level
         && display[k].userName == csv.value[k].userName
  }

  /** The table of the page: the merged array ranked and cut after rank 100.
      Each shown row carries its competition rank, and the shown rows are
      exactly the merged rows with fewer than 100 users strictly above them.
      With clean input the table agrees row by row with the merged CSV of the
      archive, so both consumers see the same merged list. */
  method CreateMergeAndShow(st: Store) returns (display: seq<DisplayRow>)
    ensures IsRankedTable(MergedArray(Values(st)), display)
    ensures CleanStore(st) ==> AgreesWithCsv(display, DecodeText(MergedCsv(st)))
  {
    var merged := MergedArray(Values(st));
    display := RankTop(merged);
    CompetitionRanks(merged);
    if CleanStore(st) {
      MergedCsvReadsBack(st);
    }
  }

  /** The fetch button: store the month's rows (replacing earlier ones for the
      same month), then build the archive and the table from the new store.
      The store, like the page's month-keyed object, holds each month once. */
  method OnFetch(st: Store, month: string, data: seq<Row>) returns (st': Store, files: seq<ArchiveFile>, display: seq<DisplayRow>)
    requires DistinctMonths(st)
    ensures DistinctMonths(st')
    ensures Months(st') == Months(st) + {month}
    ensures Lookup(st', month) == Some(data)
    ensures forall m :: m != month ==> Lookup(st', m) == Lookup(st, m)
    ensures files == CreateZip(st')
    ensures IsRankedTable(MergedArray(Values(st')), display)
  {
    st' := Put(st, month, data);
    PutKeepsDistinct(st, month, data);
    files := CreateZip(st');
    display := CreateMergeAndShow(st');
  }
}
