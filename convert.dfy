/**
  `transform_csv` of convert.py: turns the rows of a GnuCash CSV export,
  already split into named fields by the CSV reader, into beancount text.

  Rows are read in order. A row whose transaction ID is non-empty and
  differs from the last one seen opens a transaction: a header line
  `DATE * "DESCRIPTION"` is written and the currency becomes the last
  `:`-separated segment of the commodity field. Every row then writes one
  posting line with its rewritten account, rewritten amount and the
  current currency.
*/
module Convert {
  import opened PyStr

  datatype Option<T> = None | Some(value: T)
  datatype Result<T, E> = Success(value: T) | Failure(error: E)

  /** `'Amount Num' not in reader.fieldnames` raises a TypeError when the input has no header line. */
  datatype CsvError = NoFieldnames

  /** One row as the CSV reader returns it: column name to field text. */
  type Row = map<string, string>

  const TransactionId := "Transaction ID"
  const Date := "Date"
  const Description := "Description"
  const Commodity := "Commodity/Currency"
  const FullAccountName := "Full Account Name"
  /** The amount column as GnuCash mobile names it; GnuCash desktop adds a dot. */
  const AmountNum := "Amount Num"
  const AmountNumDot := "Amount Num."

  /** The amount column: `Amount Num` when the header has it, `Amount Num.` otherwise. */
  function AmountColumn(fieldnames: seq<string>): (col: string)
    ensures col == AmountNum <==> AmountNum in fieldnames
    ensures col == AmountNum || col == AmountNumDot
  {
    if AmountNum !in fieldnames then AmountNumDot else AmountNum
  }

  /** The account as written: spaces become `-` and commas are dropped. */
  function AccountName(name: string): (r: string)
    ensures ' ' !in r && ',' !in r
  {
    ReplaceKeepsOut(Replace(name, ' ', "-"), ',', "", ' ');
    Replace(Replace(name, ' ', "-"), ',', "")
  }

  /** The amount as written: `(` becomes `-` and `)` is dropped, so `(12.34)` reads `-12.34`. */
  function AmountText(amount: string): (r: string)
    ensures '(' !in r && ')' !in r
    ensures '(' !in amount && ')' !in amount ==> r == amount
  {
    ReplaceKeepsOut(Replace(amount, '(', "-"), ')', "", '(');
    Replace(Replace(amount, '(', "-"), ')', "")
  }

  /** The currency of a commodity id: the text after its last `:`, or all of it. */
  function Currency(commodity: string): string
  {
    var parts := Split(commodity, ':');
    parts[|parts| - 1]
  }

  /**
    The currency is the tail of the commodity id after its last `:`: it
    holds no `:` and is either the whole id or preceded by a `:`.
  */
  lemma CurrencyIsLastSegment(commodity: string)
    ensures var r := Currency(commodity);
            && ':' !in r
            && |r| <= |commodity| && commodity[|commodity| - |r|..] == r
            && (|r| == |commodity| || commodity[|commodity| - |r| - 1] == ':')
  {
    SplitLastIsTail(commodity, ':');
  }

  /** The account rewrite distributes over concatenation. */
  lemma AccountNameAppend(a: string, b: string)
    ensures AccountName(a + b) == AccountName(a) + AccountName(b)
  {
    ReplaceAppend(a, b, ' ', "-");
    ReplaceAppend(Replace(a, ' ', "-"), Replace(b, ' ', "-"), ',', "");
  }

  /** On one character: a space becomes `-`, a comma disappears, anything else stays. */
  lemma AccountNameChar(x: char)
    ensures AccountName([x]) == if x == ' ' then "-" else if x == ',' then "" else [x]
  {
    assert Replace([x], ' ', "-") == (if x == ' ' then "-" else [x]) + Replace([], ' ', "-");
  }

  /**
    The amount rewrite works character by character: it distributes over
    concatenation, `(` becomes `-`, `)` disappears and every other character
    stays.
  */
  lemma AmountTextByChar(a: string, b: string, x: char)
    ensures AmountText(a + b) == AmountText(a) + AmountText(b)
    ensures AmountText([x]) == if x == '(' then "-" else if x == ')' then "" else [x]
  {
    ReplaceAppend(a, b, '(', "-");
    ReplaceAppend(Replace(a, '(', "-"), Replace(b, '(', "-"), ')', "");
    assert Replace([x], '(', "-") == (if x == '(' then "-" else [x]) + Replace([], '(', "-");
  }

  /** A parenthesised amount is the negative one: `(d)` is written `-d`, `d` rewritten as usual. */
  lemma AmountTextNegative(digits: string)
    ensures AmountText("(" + digits + ")") == "-" + AmountText(digits)
  {
    AmountTextByChar("(" + digits, ")", ')');
    AmountTextByChar("(", digits, '(');
  }

  /** Only the last `:` counts: the currency of `p:q` is `q` when `q` has no `:`. */
  lemma CurrencyAfterColon(p: string, q: string)
    requires ':' !in q
    ensures Currency(p + ":" + q) == q
  {
    var c := p + ":" + q;
    var r := Currency(c);
    CurrencyIsLastSegment(c);
    assert c[|p|] == ':';
    assert r == c[|c| - |q|..] == q;
  }

  /** An account name free of spaces and commas is written as it is. */
  lemma AccountNameUnchanged(name: string)
    requires ' ' !in name && ',' !in name
    ensures AccountName(name) == name
  {
  }

  /** A comma-and-space and a space between words both become a single `-`. */
  lemma AccountNameJoined(a: string, b: string, c: string)
    requires ' ' !in a && ',' !in a && ' ' !in b && ',' !in b && ' ' !in c && ',' !in c
    ensures AccountName(a + ", " + b + " " + c) == a + "-" + b + "-" + c
  {
    AccountNameUnchanged(a);
    AccountNameUnchanged(b);
    AccountNameUnchanged(c);
    var comma, space, dash := ", ", " ", "-";
    assert AccountName(comma) == dash by {
      AccountNameChar(',');
      AccountNameChar(' ');
      AccountNameAppend([','], [' ']);
      assert [','] + [' '] == comma;
    }
    assert AccountName(space) == dash by {
      AccountNameChar(' ');
    }
    var s1 := a + comma;
    var s2 := s1 + b;
    var s3 := s2 + space;
    var s4 := s3 + c;
    AccountNameAppend(a, comma);
    AccountNameAppend(s1, b);
    AccountNameAppend(s2, space);
    AccountNameAppend(s3, c);
    assert AccountName(s4) == a + dash + b + dash + c;
  }

  /** `Cash, US Bank` is written `Cash-US-Bank`. */
  lemma AccountNameSample(name: string)
    requires name == "Cash, US Bank"
    ensures AccountName(name) == "Cash-US-Bank"
  {
    var a, b, c := "Cash", "US", "Bank";
    SampleWords(name, a, b, c);
    AccountNameJoined(a, b, c);
  }

  lemma SampleWords(name: string, a: string, b: string, c: string)
    requires name == "Cash, US Bank" && a == "Cash" && b == "US" && c == "Bank"
    ensures name == a + ", " + b + " " + c
    ensures a + "-" + b + "-" + c == "Cash-US-Bank"
  {
    var dash := "-";
    assert a + dash + b == "Cash-US";
  }

  /** `(12.34)` is written `-12.34`. */
  lemma AmountTextSample(amount: string)
    requires amount == "(12.34)"
    ensures AmountText(amount) == "-12.34"
  {
    var digits := "12.34";
    SampleDigits(amount, digits);
    AmountTextNegative(digits);
  }

  lemma SampleDigits(amount: string, digits: string)
    requires amount == "(12.34)" && digits == "12.34"
    ensures amount == "(" + digits + ")"
    ensures '(' !in digits && ')' !in digits
    ensures "-" + digits == "-12.34"
  {
  }

  /** The currency of `CURRENCY:USD` is `USD`. */
  lemma CurrencySample()
    ensures Currency("CURRENCY:USD") == "USD"
  {
    assert "CURRENCY:USD" == "CURRENCY" + ":" + "USD";
    CurrencyAfterColon("CURRENCY", "USD");
  }

  /** A column of a row; the specification reads only columns the reader guarantees. */
  function Field(row: Row, key: string): string
  {
    if key in row then row[key] else ""
  }

  /** The columns every row of a reader with this header carries. */
  function Columns(fieldnames: seq<string>): set<string>
  {
    set f | f in fieldnames
  }

  /**
    The rows come from a reader with header `fieldnames`, and no column
    that `transform_csv` reads is missing: the ID, account and amount
    columns as soon as there is a row, and the date, description and
    commodity columns as soon as some row has an ID (the first such row
    always opens a transaction).
  */
  predicate Readable(fieldnames: seq<string>, rows: seq<Row>)
  {
    && (forall i :: 0 <= i < |rows| ==> Columns(fieldnames) <= rows[i].Keys)
    && (rows != [] ==>
          TransactionId in fieldnames && FullAccountName in fieldnames && AmountColumn(fieldnames) in fieldnames)
    && ((exists i :: 0 <= i < |rows| && Field(rows[i], TransactionId) != "") ==>
          Date in fieldnames && Description in fieldnames && Commodity in fieldnames)
  }

  /** The two variables that persist across rows. */
  datatype State = State(transactionId: string, currency: string)

  const Initial := State("", "")

  /** One write of the output: a transaction header or a posting. */
  datatype Line =
    | Header(date: string, description: string)
    | Posting(account: string, amount: string, currency: string)

  /**
    The text of one write: it ends with a newline; a header starts with its
    date, a posting with the two-space indent beancount requires.
  */
  function Render(line: Line): (r: string)
    ensures |r| > 0 && r[|r| - 1] == '\n'
    ensures line.Header? ==> |line.date| <= |r| && r[..|line.date|] == line.date
    ensures line.Posting? ==> |r| >= 2 && r[0] == ' ' && r[1] == ' '
  {
    match line
    case Header(date, description) => date + " * \"" + description + "\"\n"
    case Posting(account, amount, currency) => "  " + account + "        " + amount + " " + currency + "\n"
  }

  /** One write per line, in order. */
  function RenderAll(lines: seq<Line>): (r: seq<string>)
    ensures |r| == |lines|
    ensures forall i :: 0 <= i < |lines| ==> r[i] == Render(lines[i])
  {
    if lines == [] then [] else [Render(lines[0])] + RenderAll(lines[1..])
  }

  /** Whether `row` opens a transaction after the rows that led to `st`. */
  predicate Opens(row: Row, st: State): (r: bool)
    ensures Field(row, TransactionId) == "" ==> !r
    ensures Field(row, TransactionId) == st.transactionId ==> !r
    ensures Field(row, TransactionId) != "" && st.transactionId == "" ==> r
  {
    Field(row, TransactionId) != "" && Field(row, TransactionId) != st.transactionId
  }

  /** The state after one row. */
  function Next(row: Row, st: State): (r: State)
    ensures r.transactionId == if Field(row, TransactionId) != "" then Field(row, TransactionId) else st.transactionId
    ensures r != st ==> Opens(row, st)
    ensures Opens(row, st) ==> r.currency == Currency(Field(row, Commodity))
  {
    if Opens(row, st) then State(Field(row, TransactionId), Currency(Field(row, Commodity))) else st
  }

  /** The lines one row writes. */
  function RowLines(row: Row, col: string, st: State): seq<Line>
  {
    (if Opens(row, st) then [Header(Field(row, Date), Field(row, Description))] else [])
      + [Posting(AccountName(Field(row, FullAccountName)), AmountText(Field(row, col)), Next(row, st).currency)]
  }

  /** The lines the loop writes for `rows`, starting from `st`, amounts read from column `col`. */
  function Entries(rows: seq<Row>, col: string, st: State): seq<Line>
  {
    if rows == [] then [] else RowLines(rows[0], col, st) + Entries(rows[1..], col, Next(rows[0], st))
  }

  /** The state after all of `rows`. */
  function After(rows: seq<Row>, st: State): State
  {
    if rows == [] then st else After(rows[1..], Next(rows[0], st))
  }

  lemma {:induction false} RenderAllAppend(a: seq<Line>, b: seq<Line>)
    ensures RenderAll(a + b) == RenderAll(a) + RenderAll(b)
  {
    if a == [] {
      assert a + b == b;
    } else {
      assert (a + b)[0] == a[0];
      assert (a + b)[1..] == a[1..] + b;
      RenderAllAppend(a[1..], b);
    }
  }

  /** Peeling row `i` off the lines still to be written. */
  lemma EntriesStep(rows: seq<Row>, i: nat, col: string, st: State)
    requires i < |rows|
    ensures Entries(rows[i..], col, st) == RowLines(rows[i], col, st) + Entries(rows[i + 1..], col, Next(rows[i], st))
  {
    assert rows[i..][0] == rows[i];
    assert rows[i..][1..] == rows[i + 1..];
  }

  /** After the strings of row `i`, what remains to be written is the rows after it. */
  lemma WrittenRow(rows: seq<Row>, i: nat, col: string, st: State, written: seq<string>, writes: seq<string>)
    requires i < |rows|
    requires writes == RenderAll(RowLines(rows[i], col, st))
    ensures (written + writes) + RenderAll(Entries(rows[i + 1..], col, Next(rows[i], st)))
            == written + RenderAll(Entries(rows[i..], col, st))
  {
    EntriesStep(rows, i, col, st);
    RenderAllAppend(RowLines(rows[i], col, st), Entries(rows[i + 1..], col, Next(rows[i], st)));
  }

  /** The columns the loop reads from row `i` are there. */
  lemma RowIsReadable(fieldnames: seq<string>, rows: seq<Row>, i: nat)
    requires Readable(fieldnames, rows) && i < |rows|
    ensures TransactionId in rows[i] && FullAccountName in rows[i] && AmountColumn(fieldnames) in rows[i]
    ensures rows[i][TransactionId] != "" ==> Date in rows[i] && Description in rows[i] && Commodity in rows[i]
  {
    assert Columns(fieldnames) <= rows[i].Keys;
    if rows[i][TransactionId] != "" {
      assert Field(rows[i], TransactionId) != "";
    }
  }

  /** The strings one row writes, in the order the loop body writes them. */
  lemma RowWrites(row: Row, col: string, st: State)
    ensures RenderAll(RowLines(row, col, st))
            == (if Opens(row, st) then [Render(Header(Field(row, Date), Field(row, Description)))] else [])
               + [Render(Posting(AccountName(Field(row, FullAccountName)), AmountText(Field(row, col)), Next(row, st).currency))]
  {
    var posting := Posting(AccountName(Field(row, FullAccountName)), AmountText(Field(row, col)), Next(row, st).currency);
    if Opens(row, st) {
      RenderAllAppend([Header(Field(row, Date), Field(row, Description))], [posting]);
    }
  }

  /**
    One pass of the row loop of `transform_csv`: the strings it writes for
    `row` and the loop variables after it.
  */
  method WriteRow(row: Row, col: string, transactionId: string, currency: string)
    returns (writes: seq<string>, transactionId': string, currency': string)
    requires TransactionId in row && FullAccountName in row && col in row
    requires row[TransactionId] != "" && row[TransactionId] != transactionId ==>
               Date in row && Description in row && Commodity in row
    ensures writes == RenderAll(RowLines(row, col, State(transactionId, currency)))
    ensures State(transactionId', currency') == Next(row, State(transactionId, currency))
  {
    writes, transactionId', currency' := [], transactionId, currency;
    if row[TransactionId] != "" && row[TransactionId] != transactionId {
      transactionId' := row[TransactionId];
      writes := writes + [Render(Header(row[Date], row[Description]))];
      currency' := Currency(row[Commodity]);
    }
    var account := AccountName(row[FullAccountName]);
    var amount := AmountText(row[col]);
    writes := writes + [Render(Posting(account, amount, currency'))];
    RowWrites(row, col, State(transactionId, currency));
  }

  /**
    `transform_csv`: `fieldnames` is the reader's header (none for an
    empty input), `rows` the rows it yields; the result is the sequence of
    strings written to the output file, in order.
  */
  method TransformCsv(fieldnames: Option<seq<string>>, rows: seq<Row>) returns (result: Result<seq<string>, CsvError>)
    requires fieldnames.None? ==> rows == []
    requires fieldnames.Some? ==> Readable(fieldnames.value, rows)
    ensures fieldnames.None? ==> result == Failure(NoFieldnames)
    ensures fieldnames.Some? ==>
              result == Success(RenderAll(Entries(rows, AmountColumn(fieldnames.value), Initial)))
  {
    if fieldnames.None? {
      return Failure(NoFieldnames);
    }
    var names := fieldnames.value;
    var currency := "";
    var transactionId := "";
    var headerAmount := AmountNum;
    if headerAmount !in names {
      headerAmount := AmountNumDot;
    }
    var written: seq<string> := [];
    for i := 0 to |rows|
      invariant written + RenderAll(Entries(rows[i..], headerAmount, State(transactionId, currency)))
                == RenderAll(Entries(rows, headerAmount, Initial))
    {
      ghost var st := State(transactionId, currency);
      RowIsReadable(names, rows, i);
      var writes;
      writes, transactionId, currency := WriteRow(rows[i], headerAmount, transactionId, currency);
      WrittenRow(rows, i, headerAmount, st, written, writes);
      written := written + writes;
    }
    assert rows[|rows|..] == [];
    assert RenderAll(Entries([], headerAmount, State(transactionId, currency))) == [];
    assert written + [] == written;
    assert headerAmount == AmountColumn(names);
    return Success(written);
  }
}
