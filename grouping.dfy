/**
  How `transform_csv` groups rows into transactions, stated without its
  loop variables: row by row, in terms of the rows before it.

  `Expected` is a reference definition of the output: each row writes a
  header exactly when its ID is non-empty and differs from the most recent
  non-empty ID before it, and its posting carries the currency of the last
  row that wrote a header. `EntriesMatchExpected` proves the loop's
  specification equal to it; the line counts and the grouping facts
  follow.
*/
module Grouping {
  import opened PyStr
  import opened Convert

  function Id(row: Row): string
  {
    Field(row, TransactionId)
  }

  /** The most recent non-empty transaction ID in `rows`, or `last` when they have none. */
  function LastId(rows: seq<Row>, last: string): string
  {
    if rows == [] then last
    else if Id(rows[|rows| - 1]) != "" then Id(rows[|rows| - 1])
    else LastId(rows[..|rows| - 1], last)
  }

  /** Row `i` starts a transaction: its ID is non-empty and not the most recent non-empty ID before it. */
  predicate StartsTransaction(rows: seq<Row>, i: nat, st: State)
    requires i < |rows|
  {
    Id(rows[i]) != "" && Id(rows[i]) != LastId(rows[..i], st.transactionId)
  }

  /** The currency after `rows`: that of the last row starting a transaction, or the one in `st`. */
  function CurrencyAfter(rows: seq<Row>, st: State): string
  {
    if rows == [] then st.currency
    else if StartsTransaction(rows, |rows| - 1, st) then Currency(Field(rows[|rows| - 1], Commodity))
    else CurrencyAfter(rows[..|rows| - 1], st)
  }

  /** The reference output: for each row, a header if it starts a transaction, then its posting. */
  function Expected(rows: seq<Row>, col: string, st: State): seq<Line>
  {
    if rows == [] then []
    else
      var n := |rows| - 1;
      Expected(rows[..n], col, st)
      + (if StartsTransaction(rows, n, st) then [Header(Field(rows[n], Date), Field(rows[n], Description))] else [])
      + [Posting(AccountName(Field(rows[n], FullAccountName)), AmountText(Field(rows[n], col)), CurrencyAfter(rows, st))]
  }

  /** How many rows start a transaction. */
  function NewTransactions(rows: seq<Row>, st: State): nat
  {
    if rows == [] then 0
    else NewTransactions(rows[..|rows| - 1], st) + (if StartsTransaction(rows, |rows| - 1, st) then 1 else 0)
  }

  function Headers(lines: seq<Line>): nat
  {
    if lines == [] then 0 else (if lines[0].Header? then 1 else 0) + Headers(lines[1..])
  }

  function Postings(lines: seq<Line>): nat
  {
    if lines == [] then 0 else (if lines[0].Posting? then 1 else 0) + Postings(lines[1..])
  }

  lemma {:induction false} CountsAppend(a: seq<Line>, b: seq<Line>)
    ensures Headers(a + b) == Headers(a) + Headers(b)
    ensures Postings(a + b) == Postings(a) + Postings(b)
  {
    if a == [] {
      assert a + b == b;
    } else {
      assert (a + b)[0] == a[0];
      assert (a + b)[1..] == a[1..] + b;
      CountsAppend(a[1..], b);
    }
  }

  /** Every line is a header or a posting. */
  lemma {:induction false} CountsCover(lines: seq<Line>)
    ensures |lines| == Headers(lines) + Postings(lines)
  {
    if lines != [] {
      CountsCover(lines[1..]);
    }
  }

  /** Running the loop over one more row is one more step of `Next`. */
  lemma {:induction false} AfterSnoc(rows: seq<Row>, r: Row, st: State)
    ensures After(rows + [r], st) == Next(r, After(rows, st))
  {
    if rows == [] {
      assert [] + [r] == [r];
      assert [r][1..] == [];
    } else {
      assert (rows + [r])[0] == rows[0];
      assert (rows + [r])[1..] == rows[1..] + [r];
      AfterSnoc(rows[1..], r, Next(rows[0], st));
    }
  }

  /** One more row adds, at the end, the lines that row writes in the state the others leave. */
  lemma {:induction false} EntriesSnoc(rows: seq<Row>, r: Row, col: string, st: State)
    ensures Entries(rows + [r], col, st) == Entries(rows, col, st) + RowLines(r, col, After(rows, st))
  {
    if rows == [] {
      assert [] + [r] == [r];
      assert [r][1..] == [];
    } else {
      var st' := Next(rows[0], st);
      assert (rows + [r])[0] == rows[0];
      assert (rows + [r])[1..] == rows[1..] + [r];
      EntriesSnoc(rows[1..], r, col, st');
      assert Entries(rows + [r], col, st)
             == RowLines(rows[0], col, st) + (Entries(rows[1..], col, st') + RowLines(r, col, After(rows[1..], st')));
    }
  }

  /**
    The loop variables after any prefix of the rows: the remembered ID is
    the most recent non-empty ID, and the currency is that of the last row
    that started a transaction.
  */
  lemma {:induction false} AfterIsHistory(rows: seq<Row>, st: State)
    ensures After(rows, st) == State(LastId(rows, st.transactionId), CurrencyAfter(rows, st))
  {
    if rows != [] {
      var n := |rows| - 1;
      var prefix := rows[..n];
      assert rows == prefix + [rows[n]];
      AfterSnoc(prefix, rows[n], st);
      AfterIsHistory(prefix, st);
    }
  }

  /**
    A row writes a header exactly when its ID is non-empty and differs from
    the most recent non-empty ID of the rows before it.
  */
  lemma OpensIffStarts(rows: seq<Row>, i: nat, st: State)
    requires i < |rows|
    ensures Opens(rows[i], After(rows[..i], st)) <==> StartsTransaction(rows, i, st)
  {
    AfterIsHistory(rows[..i], st);
  }

  /** The loop writes exactly the reference output. */
  lemma {:induction false} EntriesMatchExpected(rows: seq<Row>, col: string, st: State)
    ensures Entries(rows, col, st) == Expected(rows, col, st)
  {
    if rows != [] {
      var n := |rows| - 1;
      var prefix := rows[..n];
      assert rows == prefix + [rows[n]];
      EntriesSnoc(prefix, rows[n], col, st);
      AfterSnoc(prefix, rows[n], st);
      AfterIsHistory(prefix, st);
      AfterIsHistory(rows, st);
      EntriesMatchExpected(prefix, col, st);
    }
  }

  lemma {:induction false} ExpectedCounts(rows: seq<Row>, col: string, st: State)
    ensures Headers(Expected(rows, col, st)) == NewTransactions(rows, st)
    ensures Postings(Expected(rows, col, st)) == |rows|
  {
    if rows != [] {
      var n := |rows| - 1;
      var header := if StartsTransaction(rows, n, st) then [Header(Field(rows[n], Date), Field(rows[n], Description))] else [];
      var posting := [Posting(AccountName(Field(rows[n], FullAccountName)), AmountText(Field(rows[n], col)), CurrencyAfter(rows, st))];
      ExpectedCounts(rows[..n], col, st);
      CountsAppend(Expected(rows[..n], col, st), header);
      CountsAppend(Expected(rows[..n], col, st) + header, posting);
    }
  }

  /**
    Every row writes exactly one posting and the rows that start a
    transaction one header each, so there is one write per row plus one
    per started transaction.
  */
  lemma LineCount(rows: seq<Row>, col: string, st: State)
    ensures Postings(Entries(rows, col, st)) == |rows|
    ensures Headers(Entries(rows, col, st)) == NewTransactions(rows, st)
    ensures |Entries(rows, col, st)| == |rows| + NewTransactions(rows, st)
    ensures |RenderAll(Entries(rows, col, st))| == |rows| + NewTransactions(rows, st)
  {
    EntriesMatchExpected(rows, col, st);
    ExpectedCounts(rows, col, st);
    CountsCover(Entries(rows, col, st));
  }

  /** A row with the same ID as the row before it continues that row's transaction. */
  lemma ContinuesTransaction(rows: seq<Row>, i: nat, st: State)
    requires 0 < i < |rows| && Id(rows[i]) == Id(rows[i - 1])
    ensures !StartsTransaction(rows, i, st)
  {
    assert rows[..i][i - 1] == rows[i - 1];
  }

  /** A row with an empty ID leaves the remembered ID as it was. */
  lemma EmptyIdKeepsLastId(rows: seq<Row>, r: Row, last: string)
    requires Id(r) == ""
    ensures LastId(rows + [r], last) == LastId(rows, last)
  {
    assert (rows + [r])[..|rows|] == rows;
  }

  lemma StartsInPrefix(rows: seq<Row>, n: nat, i: nat, st: State)
    requires i < n <= |rows|
    ensures StartsTransaction(rows[..n], i, st) == StartsTransaction(rows, i, st)
  {
    assert rows[..n][..i] == rows[..i];
  }

  /** Until some row starts a transaction, postings carry the currency the rows started with. */
  lemma {:induction false} CurrencyBeforeFirstHeader(rows: seq<Row>, st: State)
    requires forall i :: 0 <= i < |rows| ==> !StartsTransaction(rows, i, st)
    ensures CurrencyAfter(rows, st) == st.currency
  {
    if rows != [] {
      var n := |rows| - 1;
      forall i | 0 <= i < n
        ensures !StartsTransaction(rows[..n], i, st)
      {
        StartsInPrefix(rows, n, i, st);
      }
      CurrencyBeforeFirstHeader(rows[..n], st);
    }
  }

  /** Rows without an ID leave the remembered ID empty. */
  lemma {:induction false} NoIdYet(rows: seq<Row>)
    requires forall i :: 0 <= i < |rows| ==> Id(rows[i]) == ""
    ensures LastId(rows, "") == ""
  {
    if rows != [] {
      NoIdYet(rows[..|rows| - 1]);
    }
  }

  /** From the start of `transform_csv`, the first row with a non-empty ID always starts a transaction. */
  lemma FirstIdStarts(rows: seq<Row>, i: nat)
    requires i < |rows| && Id(rows[i]) != ""
    requires forall j :: 0 <= j < i ==> Id(rows[j]) == ""
    ensures StartsTransaction(rows, i, Initial)
  {
    NoIdYet(rows[..i]);
  }

  /** Two rows sharing one ID give one header and two postings in its currency. */
  lemma SharedIdOneHeader(r1: Row, r2: Row, col: string)
    requires Id(r1) != "" && Id(r2) == Id(r1)
    ensures var cur := Currency(Field(r1, Commodity));
            Entries([r1, r2], col, Initial)
            == [Header(Field(r1, Date), Field(r1, Description)),
                Posting(AccountName(Field(r1, FullAccountName)), AmountText(Field(r1, col)), cur),
                Posting(AccountName(Field(r2, FullAccountName)), AmountText(Field(r2, col)), cur)]
  {
    var st1 := Next(r1, Initial);
    assert st1.currency == Currency(Field(r1, Commodity));
    assert [r1, r2][1..] == [r2];
    assert [r2][1..] == [];
    assert Entries([r2], col, st1) == RowLines(r2, col, st1) + Entries([], col, Next(r2, st1));
    assert Entries([r1, r2], col, Initial) == RowLines(r1, col, Initial) + Entries([r2], col, st1);
  }

  /**
    Grouping compares with the previous ID only: IDs `a`, `b`, `a` give
    three headers, the second `a` starting a transaction of its own.
  */
  lemma RepeatedIdReopens(r1: Row, r2: Row, r3: Row, col: string)
    requires Id(r1) != "" && Id(r2) != "" && Id(r1) != Id(r2) && Id(r3) == Id(r1)
    ensures Headers(Entries([r1, r2, r3], col, Initial)) == 3
    ensures |Entries([r1, r2, r3], col, Initial)| == 6
  {
    var rows, p2, p1 := [r1, r2, r3], [r1, r2], [r1];
    LineCount(rows, col, Initial);
    assert rows[..2] == p2 && p2[..1] == p1 && rows[..1] == p1 && p1[..0] == [];
    assert LastId(p1, "") == Id(r1);
    assert LastId(p2, "") == Id(r2);
    assert StartsTransaction(p1, 0, Initial);
    assert StartsTransaction(p2, 1, Initial);
    assert StartsTransaction(rows, 2, Initial);
    assert NewTransactions(p1, Initial) == 1;
    assert NewTransactions(p2, Initial) == 2;
  }
}
