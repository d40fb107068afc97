/**
 * The admin page's actions on the shared sheet: "Analyze & Sync", which turns the extractor's
 * replies into rows and merges them into the sheet, and "Clear All Data".
 */
module Store {
  import opened Cells
  import opened Fences
  import opened Merge

  datatype Option<T> = None | Some(value: T)

  /** What a batch of replies gives: every extracted row in file order, or the first reply that does not parse. */
  datatype Batch = Rows(rows: seq<Row>) | ParseError(file: nat)

  /** What a press of "Analyze & Sync" does to the sheet. */
  datatype SyncOutcome =
    | Aborted(file: nat)  // `json.loads` raised on this file's reply: nothing is written
    | NothingNew          // the replies held no rows: nothing is written
    | Synced              // the rows were merged into the sheet

  /** How one reply is read: its code fences are removed, then `json.loads` runs on what is left. */
  function Decoder(parse: string -> Option<seq<Row>>): (decode: string -> Option<seq<Row>>)
    ensures forall body :: '`' !in body ==> decode(JsonFence + body + Fence) == parse(body)
  {
    CodeBlocksCleanToBody();
    reply => parse(StripFences(reply))
  }

  /** The reply of file `k`, decoded. */
  function ParseReply(replies: seq<string>, decode: string -> Option<seq<Row>>, k: nat): Option<seq<Row>>
    requires k < |replies|
  {
    decode(replies[k])
  }

  /**
   * The rows the upload loop accumulates: each reply is decoded and its rows are appended; the
   * first reply that does not decode ends the batch.
   */
  function Collect(replies: seq<string>, decode: string -> Option<seq<Row>>): (b: Batch)
    ensures b.ParseError? ==> b.file < |replies| && ParseReply(replies, decode, b.file).None?
    ensures b.ParseError? ==> forall j :: 0 <= j < b.file ==> ParseReply(replies, decode, j).Some?
    ensures b.Rows? ==> forall j :: 0 <= j < |replies| ==> ParseReply(replies, decode, j).Some?
    decreases |replies|
  {
    if replies == [] then Rows([])
    else
      var n := |replies| - 1;
      var front := replies[..n];
      assert forall j :: 0 <= j < n ==> ParseReply(front, decode, j) == ParseReply(replies, decode, j);
      match Collect(front, decode)
      case ParseError(k) => ParseError(k)
      case Rows(acc) =>
        match decode(replies[n])
        case None => ParseError(n)
        case Some(rows) => Rows(acc + rows)
  }

  /** The batch fails exactly when some reply does not parse. */
  lemma CollectFailsIffSomeReplyBad(replies: seq<string>, decode: string -> Option<seq<Row>>)
    ensures Collect(replies, decode).ParseError?
            <==> exists k :: 0 <= k < |replies| && ParseReply(replies, decode, k).None?
  {
    var b := Collect(replies, decode);
    if b.ParseError? {
      assert ParseReply(replies, decode, b.file).None?;
    }
  }

  /** Once a prefix of the replies fails, the whole batch fails at the same file. */
  lemma {:induction false} CollectPrefixError(replies: seq<string>, decode: string -> Option<seq<Row>>, n: nat)
    requires n <= |replies| && Collect(replies[..n], decode).ParseError?
    ensures Collect(replies, decode) == Collect(replies[..n], decode)
    decreases |replies| - n
  {
    if n < |replies| {
      var m := |replies| - 1;
      if n < m {
        assert replies[..m][..n] == replies[..n];
        CollectPrefixError(replies[..m], decode, n);
      } else {
        assert replies[..m] == replies[..n];
      }
    } else {
      assert replies[..n] == replies;
    }
  }

  /** The rows of two batches that both parse are the rows of the first followed by those of the second. */
  lemma {:induction false} CollectConcatenates(a: seq<string>, b: seq<string>, decode: string -> Option<seq<Row>>)
    requires Collect(a, decode).Rows? && Collect(b, decode).Rows?
    ensures Collect(a + b, decode) == Rows(Collect(a, decode).rows + Collect(b, decode).rows)
    decreases |b|
  {
    if b == [] {
      assert a + b == a;
    } else {
      var m := |b| - 1;
      var front := b[..m];
      assert (a + b)[..|a| + m] == a + front;
      assert (a + b)[|a| + m] == b[m];
      CollectConcatenates(a, front, decode);
      var rows := decode(b[m]).value;
      assert Collect(b, decode).rows == Collect(front, decode).rows + rows;
      assert Collect(a, decode).rows + Collect(front, decode).rows + rows
          == Collect(a, decode).rows + (Collect(front, decode).rows + rows);
    }
  }

  /** One reply gives its parsed rows, or fails at file 0; with `CollectConcatenates` this fixes every batch's rows. */
  lemma CollectOne(reply: string, decode: string -> Option<seq<Row>>)
    ensures Collect([reply], decode) == if decode(reply).None? then ParseError(0) else Rows(decode(reply).value)
  {
    assert [reply][..0] == [];
  }

  /** The upload loop of the admin page. */
  method CollectRows(replies: seq<string>, parse: string -> Option<seq<Row>>) returns (b: Batch)
    ensures b == Collect(replies, Decoder(parse))
  {
    var acc: seq<Row> := [];
    var i := 0;
    while i < |replies|
      invariant 0 <= i <= |replies|
      invariant Collect(replies[..i], Decoder(parse)) == Rows(acc)
    {
      assert replies[..i + 1][..i] == replies[..i];
      var parsed := parse(StripFences(replies[i]));
      if parsed.None? {
        CollectPrefixError(replies, Decoder(parse), i + 1);
        return ParseError(i);
      }
      acc := acc + parsed.value;
      i := i + 1;
    }
    assert replies[..i] == replies;
    b := Rows(acc);
  }

  /** The shared sheet: a header row and the data rows below it. */
  class Sheet {
    var header: seq<string>
    var rows: seq<Row>

    /** The app only ever writes the canonical columns; a sheet without data rows may have no header at all. */
    ghost predicate Valid()
      reads this
    {
      rows != [] ==> header == Columns
    }

    constructor(header: seq<string>, rows: seq<Row>)
      requires rows != [] ==> header == Columns
      ensures Valid() && this.header == header && this.rows == rows
    {
      this.header := header;
      this.rows := rows;
    }

    /** `get_data`: the table a read of the sheet returns. */
    function Read(): (t: Table)
      reads this
      requires Valid()
      ensures t.columns == Columns && |t.records| == |rows|
      ensures forall i :: 0 <= i < |rows| ==> t.records[i] == NormaliseRow(rows[i])
    {
      ReadSheet(header, rows)
    }

    /** Reads the table and writes back the merge of it and `incoming`. */
    method Sync(incoming: seq<Row>)
      requires Valid()
      modifies this
      ensures Valid() && header == Columns
      ensures rows == MergeRows(old(Read()), incoming)
      ensures forall i, j :: 0 <= i < j < |Read().records| ==> Read().records[i].fullOrder != Read().records[j].fullOrder
    {
      var existing := Read();
      var merged := MergeRows(existing, incoming);
      MergedReadHasUniqueOrders(existing, incoming, Columns);
      header := Columns;
      rows := merged;
    }

    /**
     * The write as the code makes it: duplicates are looked for among the raw FullOrder cells, so
     * the sheet may afterwards show an order twice.
     */
    method SyncAsWritten(incoming: seq<Row>)
      requires Valid()
      modifies this
      ensures Valid() && header == Columns
      ensures rows == MergeAsWritten(old(Read()), incoming)
    {
      var existing := Read();
      header := Columns;
      rows := MergeAsWritten(existing, incoming);
    }

    /** "Analyze & Sync": collect the rows of every reply, then merge them in when there are any. */
    method AnalyzeAndSync(replies: seq<string>, parse: string -> Option<seq<Row>>) returns (outcome: SyncOutcome)
      requires Valid()
      modifies this
      ensures Valid()
      ensures Collect(replies, Decoder(parse)).ParseError? ==>
                outcome == Aborted(Collect(replies, Decoder(parse)).file) && header == old(header) && rows == old(rows)
      ensures Collect(replies, Decoder(parse)) == Rows([]) ==> outcome == NothingNew && header == old(header) && rows == old(rows)
      ensures Collect(replies, Decoder(parse)).Rows? && Collect(replies, Decoder(parse)).rows != [] ==>
                outcome == Synced && header == Columns && rows == MergeRows(old(Read()), Collect(replies, Decoder(parse)).rows)
    {
      var batch := CollectRows(replies, parse);
      if batch.ParseError? {
        return Aborted(batch.file);
      }
      if batch.rows == [] {
        return NothingNew;
      }
      Sync(batch.rows);
      outcome := Synced;
    }

    /** "Clear All Data": only the header row is left. */
    method Clear()
      modifies this
      ensures Valid() && header == Columns && rows == []
      ensures Read() == Table(Columns, [])
    {
      header := Columns;
      rows := [];
    }
  }
}
