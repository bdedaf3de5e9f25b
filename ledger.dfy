/**
 * The transaction file: a header row written when the file is first created,
 * then one row per submitted transaction, appended at the end. The file is a
 * sequence of CSV records held in memory; a record is a sequence of fields.
 */
module Ledger {
  import opened Wrappers
  import opened Fields
  import Keywords

  /** One transaction; the amount is in cents. */
  datatype Txn = Txn(date: Date, amount: nat, category: string, note: string, account: string)

  type Row = seq<string>

  const Header: Row := ["date", "amount", "category", "note", "account"]

  /** The record `write_txn_row` is given: date, amount, category, note, account. */
  function ToRow(t: Txn): Row {
    [FormatDate(t.date), FormatAmount(t.amount), t.category, t.note, t.account]
  }

  function ParseRow(r: Row): Option<Txn> {
    if |r| != 5 then None
    else match (ParseDate(r[0]), ParseAmount(r[1]))
      case (Some(d), Some(a)) => Some(Txn(d, a, r[2], r[3], r[4]))
      case _ => None
  }

  /** The data rows in file order; the read fails if any row does not parse. */
  function ParseRows(rows: seq<Row>): Option<seq<Txn>> {
    if rows == [] then Some([])
    else match (ParseRows(rows[..|rows| - 1]), ParseRow(rows[|rows| - 1]))
      case (Some(ts), Some(t)) => Some(ts + [t])
      case _ => None
  }

  /** `read_txns`: the first record is the header and is not data. */
  function ReadLines(lines: seq<Row>): Option<seq<Txn>> {
    if lines == [] || lines[0] != Header then None else ParseRows(lines[1..])
  }

  /** The rows the program writes for a sequence of transactions, in order. */
  function Rows(ts: seq<Txn>): (rows: seq<Row>)
    ensures |rows| == |ts|
  {
    seq(|ts|, i requires 0 <= i < |ts| => ToRow(ts[i]))
  }

  /** Reading one more row that parses extends the read by its transaction. */
  lemma ParseRowsSnoc(rows: seq<Row>, r: Row, ts: seq<Txn>, t: Txn)
    requires ParseRows(rows) == Some(ts) && ParseRow(r) == Some(t)
    ensures ParseRows(rows + [r]) == Some(ts + [t])
  {
    var all := rows + [r];
    assert all[..|all| - 1] == rows && all[|all| - 1] == r;
  }

  /** A written row reads back as the transaction it was written from. */
  lemma RowRoundTrip(t: Txn)
    requires ValidDate(t.date)
    ensures ParseRow(ToRow(t)) == Some(t)
  {
    DateRoundTrip(t.date);
    AmountRoundTrip(t.amount);
  }

  /** Appending one row to a readable file makes the read yield one more transaction, at the end. */
  lemma AppendThenRead(lines: seq<Row>, ts: seq<Txn>, t: Txn)
    requires ReadLines(lines) == Some(ts)
    requires ValidDate(t.date)
    ensures ReadLines(lines + [ToRow(t)]) == Some(ts + [t])
  {
    var all := lines + [ToRow(t)];
    assert all[0] == Header && all[1..] == lines[1..] + [ToRow(t)];
    RowRoundTrip(t);
    ParseRowsSnoc(lines[1..], ToRow(t), ts, t);
  }

  /** Rows that each parse read back as the sequence of their transactions. */
  lemma {:induction false} ParseRowsEach(rows: seq<Row>, ts: seq<Txn>)
    requires |rows| == |ts|
    requires forall i :: 0 <= i < |rows| ==> ParseRow(rows[i]) == Some(ts[i])
    ensures ParseRows(rows) == Some(ts)
  {
    if rows != [] {
      var n := |rows| - 1;
      forall i | 0 <= i < n
        ensures ParseRow(rows[..n][i]) == Some(ts[..n][i])
      {
        assert rows[..n][i] == rows[i] && ts[..n][i] == ts[i];
      }
      ParseRowsEach(rows[..n], ts[..n]);
      assert ParseRow(rows[n]) == Some(ts[n]);
      ParseRowsSnoc(rows[..n], rows[n], ts[..n], ts[n]);
      assert rows[..n] + [rows[n]] == rows && ts[..n] + [ts[n]] == ts;
    }
  }

  /** The rows written for N transactions parse back as exactly those N, in order. */
  lemma ParseWrittenRows(ts: seq<Txn>)
    requires forall i :: 0 <= i < |ts| ==> ValidDate(ts[i].date)
    ensures ParseRows(Rows(ts)) == Some(ts)
  {
    var rows := Rows(ts);
    forall i | 0 <= i < |rows|
      ensures ParseRow(rows[i]) == Some(ts[i])
    {
      RowRoundTrip(ts[i]);
    }
    ParseRowsEach(rows, ts);
  }

  /** A header followed by the rows of N transactions reads back as exactly those N; the header is not data. */
  lemma ReadWrittenRows(ts: seq<Txn>)
    requires forall i :: 0 <= i < |ts| ==> ValidDate(ts[i].date)
    ensures ReadLines([Header] + Rows(ts)) == Some(ts)
  {
    ParseWrittenRows(ts);
    assert ([Header] + Rows(ts))[1..] == Rows(ts);
  }

  /**
   * The transaction file. `onDisk` says whether the file exists; `lines`
   * holds its records. A missing file has no records.
   */
  class TransactionFile {
    var onDisk: bool
    var lines: seq<Row>

    /** Rules out only a missing file that has records; no method's contract depends on it. */
    ghost predicate Valid()
      reads this
    {
      onDisk || lines == []
    }

    /** The data directory exists but the file does not. */
    constructor Missing()
      ensures Valid() && !onDisk && lines == []
    {
      onDisk := false;
      lines := [];
    }

    /** A file left by earlier sessions. */
    constructor Existing(records: seq<Row>)
      ensures Valid() && onDisk && lines == records
    {
      onDisk := true;
      lines := records;
    }

    /**
     * `ensure_files`: write the header only when the file is absent. Once the
     * file exists, calling it again changes nothing.
     */
    method EnsureFiles()
      requires Valid()
      modifies this
      ensures Valid() && onDisk
      ensures lines == if old(onDisk) then old(lines) else [Header]
    {
      if !onDisk {
        onDisk := true;
        lines := [Header];
      }
    }

    /**
     * `write_txn_row`: open in append mode and add one record at the end.
     * Append mode creates a missing file, without a header.
     */
    method WriteTxnRow(row: Row)
      requires Valid()
      modifies this
      ensures Valid() && onDisk
      ensures lines == old(lines) + [row]
    {
      onDisk := true;
      lines := lines + [row];
    }

    /** `read_txns`: make sure the file exists, then read its data rows. */
    method ReadTxns() returns (r: Option<seq<Txn>>)
      requires Valid()
      modifies this
      ensures Valid() && onDisk
      ensures lines == if old(onDisk) then old(lines) else [Header]
      ensures r == ReadLines(lines)
    {
      EnsureFiles();
      r := ReadLines(lines);
    }

    /**
     * The "Add" button: resolve the chosen category against the note, then
     * append the transaction's row. Earlier rows are left as they were.
     */
    method AddTransaction(table: Keywords.Table, choice: string, date: Date, amount: nat,
                          note: string, account: string) returns (t: Txn)
      requires Valid()
      modifies this
      ensures Valid() && onDisk
      ensures t == Txn(date, amount, Keywords.ResolveCategory(table, choice, note), note, account)
      ensures lines == old(lines) + [ToRow(t)]
    {
      var category := Keywords.ResolveCategory(table, choice, note);
      t := Txn(date, amount, category, note, account);
      WriteTxnRow(ToRow(t));
    }
  }
}
