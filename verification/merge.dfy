/**
 * The sync write of the admin page: the table just read is concatenated with the extracted rows
 * and `drop_duplicates(subset=['FullOrder'], keep='last')` decides which rows are written back.
 */
module Merge {
  import opened Seqs
  import opened Strings
  import opened Cells
  import opened Dedup
  import opened Lookup

  /** A record of the table just read, as a row of text cells. */
  function AsRow(r: Record): Row {
    Row(Text(r.fullOrder), Text(r.flagNumber), Text(r.truckId), Text(r.color))
  }

  /** The records of the table just read, as rows. */
  function Stored(records: seq<Record>): (rows: seq<Row>)
    ensures |rows| == |records|
    ensures forall i :: 0 <= i < |records| ==> rows[i] == AsRow(records[i])
  {
    if records == [] then [] else [AsRow(records[0])] + Stored(records[1..])
  }

  /** `pd.concat([existing_df, pd.DataFrame(new_rows)], ignore_index=True)`. */
  function Combined(existing: Table, incoming: seq<Row>): (rows: seq<Row>)
    ensures |rows| == |existing.records| + |incoming|
    ensures forall i :: 0 <= i < |existing.records| ==> rows[i] == AsRow(existing.records[i])
    ensures rows[|existing.records|..] == incoming
  {
    Stored(existing.records) + incoming
  }

  /**
   * A cell as Python's `==` and `hash` see it: numbers compare by value, whether int or float,
   * and a string never equals a number.
   */
  datatype RawKey = Str(text: string) | Num(value: int)

  /** The FullOrder cell as `drop_duplicates` compares it. */
  function RawOrder(row: Row): RawKey {
    match row.fullOrder
    case Text(s) => Str(s)
    case Integer(n) => Num(n)
    case WholeFloat(n) => Num(n)
  }

  /** Two FullOrder cells are duplicates to `drop_duplicates` exactly when they are equal strings or equal numbers. */
  lemma RawKeysCompareAsPython(x: Row, y: Row)
    ensures RawOrder(x) == RawOrder(y) <==>
              (x.fullOrder.Text? && y.fullOrder.Text? && x.fullOrder.text == y.fullOrder.text)
              || (!x.fullOrder.Text? && !y.fullOrder.Text? && NumberOf(x.fullOrder) == NumberOf(y.fullOrder))
  {
  }

  /** The value of a numeric cell. */
  function NumberOf(c: Cell): int
    requires !c.Text?
  {
    if c.Integer? then c.value else c.whole
  }

  /** The FullOrder a later read shows for the row. */
  function OrderKey(row: Row): string {
    NormaliseCell(row.fullOrder)
  }

  /** The write as the code makes it: duplicates are looked for among the raw FullOrder cells. */
  function MergeAsWritten(existing: Table, incoming: seq<Row>): (rows: seq<Row>)
    ensures UniqueKeys(rows, RawOrder)
    ensures forall x :: x in rows ==> x in Combined(existing, incoming)
  {
    LastWins(Combined(existing, incoming), RawOrder)
  }

  /**
   * The write as intended: duplicates are looked for among the FullOrders a read shows, so no
   * order number appears twice in the sheet.
   */
  function MergeRows(existing: Table, incoming: seq<Row>): (rows: seq<Row>)
    ensures UniqueKeys(rows, OrderKey)
    ensures forall x :: x in rows ==> x in Combined(existing, incoming)
  {
    LastWins(Combined(existing, incoming), OrderKey)
  }

  /** Reading the written rows back gives records whose FullOrders are pairwise distinct. */
  lemma MergedReadHasUniqueOrders(existing: Table, incoming: seq<Row>, header: seq<string>)
    ensures var t := ReadSheet(header, MergeRows(existing, incoming));
            forall i, j :: 0 <= i < j < |t.records| ==> t.records[i].fullOrder != t.records[j].fullOrder
  {
    var rows := MergeRows(existing, incoming);
    var t := ReadSheet(header, rows);
    forall i, j | 0 <= i < j < |t.records| ensures t.records[i].fullOrder != t.records[j].fullOrder {
      assert t.records[i].fullOrder == OrderKey(rows[i]);
      assert t.records[j].fullOrder == OrderKey(rows[j]);
    }
  }

  /** Every order number of the table or of the batch is still present after the write. */
  lemma MergeKeepsEveryOrder(existing: Table, incoming: seq<Row>)
    ensures KeysOf(MergeRows(existing, incoming), OrderKey)
            == KeysOf(Stored(existing.records), OrderKey) + KeysOf(incoming, OrderKey)
  {
    var a := Stored(existing.records);
    LastWinsKeepsEveryKey(a + incoming, OrderKey);
    forall k | k in KeysOf(a, OrderKey) ensures k in KeysOf(a + incoming, OrderKey) {
      var x :| x in a && OrderKey(x) == k;
      assert x in a + incoming;
    }
    forall k | k in KeysOf(incoming, OrderKey) ensures k in KeysOf(a + incoming, OrderKey) {
      var x :| x in incoming && OrderKey(x) == k;
      assert x in a + incoming;
    }
  }

  /**
   * The write splits into the old rows whose order is not in the batch, followed by the batch
   * with its own duplicates resolved.
   */
  lemma MergeSplit(existing: Table, incoming: seq<Row>)
    ensures MergeRows(existing, incoming)
            == DropKeys(LastWins(Stored(existing.records), OrderKey), OrderKey, KeysOf(incoming, OrderKey))
               + LastWins(incoming, OrderKey)
  {
    LastWinsAppend(Stored(existing.records), incoming, OrderKey);
  }

  /** The last row of the batch for an order is written, and it is the only row written for that order. */
  lemma IncomingSupersedes(existing: Table, incoming: seq<Row>, i: nat)
    requires IsLast(incoming, OrderKey, i)
    ensures incoming[i] in MergeRows(existing, incoming)
    ensures forall x :: x in MergeRows(existing, incoming) && OrderKey(x) == OrderKey(incoming[i]) ==> x == incoming[i]
  {
    LastOfSuffixWins(Stored(existing.records), incoming, OrderKey, i);
  }

  /** A table row whose order is not in the batch, and not repeated later in the table, is written unchanged. */
  lemma UntouchedRowKept(existing: Table, incoming: seq<Row>, j: nat)
    requires IsLast(Stored(existing.records), OrderKey, j)
    requires OrderKey(Stored(existing.records)[j]) !in KeysOf(incoming, OrderKey)
    ensures AsRow(existing.records[j]) in MergeRows(existing, incoming)
  {
    var a := Stored(existing.records);
    var s := a + incoming;
    forall k | j < k < |s| ensures OrderKey(s[k]) != OrderKey(s[j]) {
      if k >= |a| {
        assert s[k] in incoming;
      } else {
        assert s[k] == a[k];
      }
    }
    LastIsKept(s, OrderKey, j);
  }

  /**
   * After the write, a read shows for an order of the batch exactly the record of its last
   * extracted row, and no other record with that FullOrder.
   */
  lemma ReadShowsLatest(existing: Table, incoming: seq<Row>, i: nat)
    requires IsLast(incoming, OrderKey, i)
    ensures var t := ReadSheet(Columns, MergeRows(existing, incoming));
            && NormaliseRow(incoming[i]) in t.records
            && forall k :: 0 <= k < |t.records| && t.records[k].fullOrder == OrderKey(incoming[i]) ==>
                 t.records[k] == NormaliseRow(incoming[i])
  {
    IncomingSupersedes(existing, incoming, i);
    OnlyRecordWithOrder(MergeRows(existing, incoming), incoming[i]);
  }

  /** Reading rows with distinct order keys shows one record per order: the read of that row. */
  lemma OnlyRecordWithOrder(rows: seq<Row>, y: Row)
    requires UniqueKeys(rows, OrderKey) && y in rows
    ensures var t := ReadSheet(Columns, rows);
            && NormaliseRow(y) in t.records
            && forall k :: 0 <= k < |t.records| && t.records[k].fullOrder == OrderKey(y) ==> t.records[k] == NormaliseRow(y)
  {
    var t := ReadSheet(Columns, rows);
    var q :| 0 <= q < |rows| && rows[q] == y;
    assert t.records[q] == NormaliseRow(y);
    forall k | 0 <= k < |t.records| && t.records[k].fullOrder == OrderKey(y) ensures t.records[k] == NormaliseRow(y) {
      ReadOrder(rows, k);
      assert k == q;
    }
  }

  /** The FullOrder a read shows for a row is the row's order key. */
  lemma ReadOrder(rows: seq<Row>, k: nat)
    requires k < |rows|
    ensures ReadSheet(Columns, rows).records[k].fullOrder == OrderKey(rows[k])
  {
  }

  /** The text of a stored numeric order and the number itself read back as the same FullOrder. */
  lemma NumericOrderKeys(n: int, e: Record, x: Row)
    requires e.fullOrder == Decimal(n) && x.fullOrder == Integer(n)
    ensures OrderKey(AsRow(e)) == Decimal(n) && OrderKey(x) == Decimal(n)
    ensures RawOrder(AsRow(e)) != RawOrder(x)
  {
    NumericCellsReadAsDecimal(n);
  }

  /** One stored record and one extracted row are concatenated in that order. */
  lemma CombinedPair(e: Record, x: Row)
    ensures Combined(Table(Columns, [e]), [x]) == [AsRow(e), x]
  {
    assert Stored([e]) == [AsRow(e)];
  }

  /** Within one batch, the extracted orders 351 and 351.0 are one order: only the later row is written. */
  lemma IntAndFloatAreOneOrder(n: ExactWhole, x: Row, y: Row)
    requires x.fullOrder == Integer(n) && y.fullOrder == WholeFloat(n)
    ensures MergeAsWritten(Table(Columns, []), [x, y]) == [y]
  {
    assert Stored([]) == [];
    assert Combined(Table(Columns, []), [x, y]) == [x, y];
    LastWinsOfPair(x, y, RawOrder);
  }

  /**
   * As written, a stored order "351" and an extracted order 351 are not duplicates to
   * `drop_duplicates`: both rows are written, the next read holds two records with FullOrder
   * "351", and the lookup shows the stale one.
   */
  lemma StaleRowSurvives(n: int, e: Record, x: Row, query: string)
    requires e.fullOrder == Decimal(n) && x.fullOrder == Integer(n)
    requires 0 < |query| <= MaxQueryLength && EndsWith(Decimal(n), query)
    ensures MergeAsWritten(Table(Columns, [e]), [x]) == [AsRow(e), x]
    ensures var t := ReadSheet(Columns, MergeAsWritten(Table(Columns, [e]), [x]));
            && |t.records| == 2
            && t.records[0].fullOrder == Decimal(n) && t.records[1].fullOrder == Decimal(n)
            && Search(t.records, query) == Found(NormaliseRow(AsRow(e)))
  {
    CombinedPair(e, x);
    NumericOrderKeys(n, e, x);
    LastWinsOfPair(AsRow(e), x, RawOrder);
    var t := ReadSheet(Columns, [AsRow(e), x]);
    assert t.records[0] == NormaliseRow(AsRow(e));
    assert t.records[1] == NormaliseRow(x);
    FirstMatchShown(t.records, query, 0);
  }

  /**
   * With the FullOrder compared as a read shows it, the extracted row replaces the stored one and
   * the lookup shows the update.
   */
  lemma UpdateReplacesStaleRow(n: int, e: Record, x: Row, query: string)
    requires e.fullOrder == Decimal(n) && x.fullOrder == Integer(n)
    requires 0 < |query| <= MaxQueryLength && EndsWith(Decimal(n), query)
    ensures MergeRows(Table(Columns, [e]), [x]) == [x]
    ensures Search(ReadSheet(Columns, MergeRows(Table(Columns, [e]), [x])).records, query) == Found(NormaliseRow(x))
  {
    CombinedPair(e, x);
    NumericOrderKeys(n, e, x);
    LastWinsOfPair(AsRow(e), x, OrderKey);
    var t := ReadSheet(Columns, [x]);
    assert t.records[0] == NormaliseRow(x);
    FirstMatchShown(t.records, query, 0);
  }
}
