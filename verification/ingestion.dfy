/**
 * `write_sql`, `setup_sql` and `iterate_files`: the store is a sequence of
 * inserted records, reset to empty at the start of a batch, to which each
 * document appends the rows its transaction committed.
 */
module Ingestion {
  import opened Wrappers
  import opened Pdf
  import opened MetadataExtraction
  import opened Assembly

  /** One row of `mesc_reports` (the surrogate `id` aside): the five metadata fields and six cells of a table row. */
  datatype Record = Record(
    firstname: string, surname: string, year: nat, semester: nat, report: nat,
    subject: Cell, evidence: Cell, personal: Cell, others: Cell, behaviour: Cell, outside: Cell)

  /** Cells of a table row that are inserted: `row[0]` to `row[5]`. */
  const RowWidth: nat := 6

  /** Which inserts succeed; an insert it rejects raised `sqlite3.Error`. */
  type Oracle = Record -> bool

  function MetaOf(r: Record): Metadata {
    Metadata(r.firstname, r.surname, r.year, r.semester, r.report)
  }

  function CellsOf(r: Record): seq<Cell> {
    [r.subject, r.evidence, r.personal, r.others, r.behaviour, r.outside]
  }

  /** The parameter tuple of one insert; cells past index 5 are ignored. */
  function ToRecord(meta: Metadata, row: Row): (r: Record)
    requires |row| >= RowWidth
    ensures MetaOf(r) == meta && CellsOf(r) == row[..RowWidth]
  {
    Record(meta.firstname, meta.surname, meta.year, meta.semester, meta.report,
           row[0], row[1], row[2], row[3], row[4], row[5])
  }

  predicate AllWide(rows: seq<Row>) {
    forall i :: 0 <= i < |rows| ==> |rows[i]| >= RowWidth
  }

  /** One insert attempt per row, in row order. */
  function Records(meta: Metadata, rows: seq<Row>): (rs: seq<Record>)
    requires AllWide(rows)
    ensures |rs| == |rows|
    ensures forall j :: 0 <= j < |rows| ==> rs[j] == ToRecord(meta, rows[j])
  {
    if |rows| == 0 then []
    else Records(meta, rows[..|rows| - 1]) + [ToRecord(meta, rows[|rows| - 1])]
  }

  /** The attempts that did not raise, in order; identical rows are each kept. */
  function Accepted(rs: seq<Record>, accepts: Oracle): (r: seq<Record>)
    ensures |r| <= |rs|
    ensures forall x :: x in r <==> x in rs && accepts(x)
    ensures forall x :: multiset(r)[x] == if accepts(x) then multiset(rs)[x] else 0
  {
    if |rs| == 0 then []
    else
      var init, last := rs[..|rs| - 1], rs[|rs| - 1];
      assert rs == init + [last];
      Accepted(init, accepts) + (if accepts(last) then [last] else [])
  }

  /** A single attempt is kept exactly when it does not raise. */
  lemma AcceptedSingleton(x: Record, accepts: Oracle)
    ensures Accepted([x], accepts) == if accepts(x) then [x] else []
  {
    assert [x][..0] == [];
  }

  /** Filtering distributes over concatenation: with `AcceptedSingleton` this pins `Accepted` down as the
      in-order filter of the attempts by the oracle. */
  lemma {:induction false} AcceptedAppend(a: seq<Record>, b: seq<Record>, accepts: Oracle)
    ensures Accepted(a + b, accepts) == Accepted(a, accepts) + Accepted(b, accepts)
    decreases |b|
  {
    if |b| == 0 {
      assert a + b == a;
    } else {
      var b', x := b[..|b| - 1], b[|b| - 1];
      assert a + b == (a + b') + [x];
      assert b == b' + [x];
      AcceptedSnoc(a + b', x, accepts);
      AcceptedSnoc(b', x, accepts);
      AcceptedAppend(a, b', accepts);
      ConcatAssoc(Accepted(a, accepts), Accepted(b', accepts), if accepts(x) then [x] else []);
    }
  }

  lemma RecordsSnoc(meta: Metadata, rows: seq<Row>, i: nat)
    requires i < |rows| && AllWide(rows[..i]) && |rows[i]| >= RowWidth
    ensures AllWide(rows[..i + 1])
    ensures Records(meta, rows[..i + 1]) == Records(meta, rows[..i]) + [ToRecord(meta, rows[i])]
  {
    assert rows[..i + 1][..i] == rows[..i];
  }

  lemma AcceptedSnoc(rs: seq<Record>, x: Record, accepts: Oracle)
    ensures Accepted(rs + [x], accepts) == Accepted(rs, accepts) + (if accepts(x) then [x] else [])
  {
    assert (rs + [x])[..|rs|] == rs;
  }

  /** What one extraction adds to the store: the accepted inserts, or nothing when a short row
      raised `IndexError`, which escapes `write_sql` and rolls its transaction back. */
  function Contribution(ex: Extraction, accepts: Oracle): (r: seq<Record>)
    ensures !AllWide(ex.rows) ==> |r| == 0
    ensures |r| <= |ex.rows|
    ensures forall x :: x in r ==> accepts(x) && MetaOf(x) == ex.meta
  {
    if AllWide(ex.rows) then Accepted(Records(ex.meta, ex.rows), accepts) else []
  }

  /** `write_sql(extracted_data)`: `attempted` are the inserts tried, `committed` the rows the
      transaction keeps, `escaped` whether an `IndexError` left the function. */
  method WriteSql(ex: Extraction, accepts: Oracle)
    returns (attempted: seq<Record>, committed: seq<Record>, escaped: bool)
    ensures escaped <==> !AllWide(ex.rows)
    ensures !escaped ==> attempted == Records(ex.meta, ex.rows) && committed == Accepted(attempted, accepts)
    ensures escaped ==> |attempted| < |ex.rows| && |ex.rows[|attempted|]| < RowWidth && committed == []
    ensures escaped ==> AllWide(ex.rows[..|attempted|]) && attempted == Records(ex.meta, ex.rows[..|attempted|])
    ensures committed == Contribution(ex, accepts)
  {
    attempted, committed, escaped := [], [], false;
    var pending: seq<Record> := [];
    var i := 0;
    while i < |ex.rows|
      invariant 0 <= i <= |ex.rows|
      invariant AllWide(ex.rows[..i])
      invariant attempted == Records(ex.meta, ex.rows[..i])
      invariant pending == Accepted(attempted, accepts)
    {
      var row := ex.rows[i];
      if |row| < RowWidth {
        // IndexError: not an sqlite3.Error, so neither handler catches it and the connection block rolls back
        escaped := true;
        return;
      }
      var rec := ToRecord(ex.meta, row);
      RecordsSnoc(ex.meta, ex.rows, i);
      AcceptedSnoc(attempted, rec, accepts);
      attempted := attempted + [rec];
      if accepts(rec) {
        pending := pending + [rec];
      }
      i := i + 1;
    }
    assert ex.rows[..i] == ex.rows;
    committed := pending;
  }

  /** `setup_sql()`: drop and recreate the table. */
  function SetupSql(store: seq<Record>): (r: seq<Record>)
    ensures |r| == 0
  {
    []
  }

  /** What one file adds to the store in `iterate_files`, given the outcome of `extract_data` on it:
      nothing when that outcome is `None`. */
  function FileRows(outcome: Option<Extraction>, accepts: Oracle): (r: seq<Record>)
    ensures outcome.None? ==> |r| == 0
    ensures forall x :: x in r ==> outcome.Some? && accepts(x) && MetaOf(x) == outcome.value.meta
  {
    match outcome
    case None => []
    case Some(ex) => Contribution(ex, accepts)
  }

  /** The rows a sequence of files adds, in file order, given each file's extraction outcome. */
  function BatchRows(outcomes: seq<Option<Extraction>>, accepts: Oracle): seq<Record> {
    if |outcomes| == 0 then []
    else BatchRows(outcomes[..|outcomes| - 1], accepts) + FileRows(outcomes[|outcomes| - 1], accepts)
  }

  /** `extract_data` applied to every file. */
  function ExtractAll(docs: seq<Document>): (outcomes: seq<Option<Extraction>>)
    ensures |outcomes| == |docs|
    ensures forall i :: 0 <= i < |docs| ==> outcomes[i] == ExtractData(docs[i])
  {
    if |docs| == 0 then [] else ExtractAll(docs[..|docs| - 1]) + [ExtractData(docs[|docs| - 1])]
  }

  lemma BatchRowsSnoc(xs: seq<Option<Extraction>>, o: Option<Extraction>, accepts: Oracle)
    ensures BatchRows(xs + [o], accepts) == BatchRows(xs, accepts) + FileRows(o, accepts)
  {
    assert (xs + [o])[..|xs|] == xs;
  }

  /** Files are independent: the rows of a batch are the rows of its parts, one after the other. */
  lemma {:induction false} BatchRowsAppend(xs: seq<Option<Extraction>>, ys: seq<Option<Extraction>>, accepts: Oracle)
    ensures BatchRows(xs + ys, accepts) == BatchRows(xs, accepts) + BatchRows(ys, accepts)
    decreases |ys|
  {
    if |ys| == 0 {
      assert xs + ys == xs;
    } else {
      var ys' := ys[..|ys| - 1];
      assert (xs + ys)[..|xs + ys| - 1] == xs + ys';
      BatchRowsAppend(xs, ys', accepts);
      ConcatAssoc(BatchRows(xs, accepts), BatchRows(ys', accepts), FileRows(ys[|ys| - 1], accepts));
    }
  }

  /** A file that fails anywhere (no extraction, or a short row) adds nothing, and the batch goes on as if it were absent. */
  lemma FailedFileSkipped(xs: seq<Option<Extraction>>, o: Option<Extraction>, ys: seq<Option<Extraction>>, accepts: Oracle)
    requires o.None? || !AllWide(o.value.rows)
    ensures FileRows(o, accepts) == []
    ensures BatchRows(xs + [o] + ys, accepts) == BatchRows(xs + ys, accepts)
  {
    BatchRowsSnoc(xs, o, accepts);
    assert BatchRows(xs + [o], accepts) == BatchRows(xs, accepts);
    BatchRowsAppend(xs + [o], ys, accepts);
    BatchRowsAppend(xs, ys, accepts);
  }

  /** No deduplication: ingesting the same file twice without a reset stores its rows twice. */
  lemma IngestTwiceDuplicates(o: Option<Extraction>, accepts: Oracle)
    ensures BatchRows([o, o], accepts) == FileRows(o, accepts) + FileRows(o, accepts)
    ensures |BatchRows([o, o], accepts)| == 2 * |FileRows(o, accepts)|
  {
    var f := FileRows(o, accepts);
    BatchRowsSnoc([], o, accepts);
    assert [] + [o] == [o];
    assert BatchRows([o], accepts) == f;
    BatchRowsSnoc([o], o, accepts);
    assert [o] + [o] == [o, o];
  }

  /** Only accepted inserts reach the store. */
  lemma {:induction false} BatchAccepted(outcomes: seq<Option<Extraction>>, accepts: Oracle)
    ensures forall x :: x in BatchRows(outcomes, accepts) ==> accepts(x)
    decreases |outcomes|
  {
    if |outcomes| > 0 {
      BatchAccepted(outcomes[..|outcomes| - 1], accepts);
    }
  }

  lemma ExtractAllSnoc(docs: seq<Document>, i: nat)
    requires i < |docs|
    ensures ExtractAll(docs[..i + 1]) == ExtractAll(docs[..i]) + [ExtractData(docs[i])]
  {
    assert docs[..i + 1][..i] == docs[..i];
  }

  /** One pass of the loop in `iterate_files`: extract the file and, when that yields a result, write it. */
  method IngestFile(store: seq<Record>, doc: Document, accepts: Oracle) returns (next: seq<Record>)
    ensures next == store + FileRows(ExtractData(doc), accepts)
  {
    next := store;
    var ex := ExtractData(doc);
    if ex.Some? {
      var attempted, committed, escaped := WriteSql(ex.value, accepts);
      next := store + committed;
    }
  }

  /** `iterate_files(files)`: every file is extracted and written in turn; any exception ends only that file. */
  method IterateFiles(store0: seq<Record>, docs: seq<Document>, accepts: Oracle) returns (store: seq<Record>)
    ensures store == store0 + BatchRows(ExtractAll(docs), accepts)
  {
    store := store0;
    var i := 0;
    while i < |docs|
      invariant 0 <= i <= |docs|
      invariant store == store0 + BatchRows(ExtractAll(docs[..i]), accepts)
    {
      var next := IngestFile(store, docs[i], accepts);
      IterateStep(store0, store, next, docs, i, accepts);
      store := next;
      i := i + 1;
    }
    assert docs[..i] == docs;
  }

  lemma IterateStep(store0: seq<Record>, store: seq<Record>, next: seq<Record>, docs: seq<Document>, i: nat, accepts: Oracle)
    requires i < |docs|
    requires store == store0 + BatchRows(ExtractAll(docs[..i]), accepts)
    requires next == store + FileRows(ExtractData(docs[i]), accepts)
    ensures next == store0 + BatchRows(ExtractAll(docs[..i + 1]), accepts)
  {
    ExtractAllSnoc(docs, i);
    BatchRowsSnoc(ExtractAll(docs[..i]), ExtractData(docs[i]), accepts);
    ConcatAssoc(store0, BatchRows(ExtractAll(docs[..i]), accepts), FileRows(ExtractData(docs[i]), accepts));
  }

  lemma ConcatAssoc<T>(a: seq<T>, b: seq<T>, c: seq<T>)
    ensures (a + b) + c == a + (b + c)
  {
  }

  /** `main()` without file discovery: reset the store, then ingest the files. The prior contents never
      matter, so running a batch again over the same files rebuilds the same store. */
  method RunBatch(prior: seq<Record>, docs: seq<Document>, accepts: Oracle) returns (store: seq<Record>)
    ensures store == BatchRows(ExtractAll(docs), accepts)
    ensures forall x :: x in store ==> accepts(x)
  {
    store := IterateFiles(SetupSql(prior), docs, accepts);
    BatchAccepted(ExtractAll(docs), accepts);
  }
}
