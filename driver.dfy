/**
 * The storage engine as the code sees it through `database/sql`: a query
 * either fails or yields rows of cells, an exec either fails or yields the
 * new table, and `Scan` converts one row into a Go variable. Every engine
 * failure (a cancelled or expired context among them) is modelled as the
 * operation's context being `Done`.
 */
module Driver {
  import opened Wrappers
  import opened Table

  datatype Context = Pending | Done

  datatype Error =
    | EngineError  // the query or exec itself failed
    | ScanError    // a row did not convert into the destination

  datatype Cell = TextCell(text: string) | IntCell(number: int)

  type Row = seq<Cell>

  /** What `QueryContext` hands back: an error, or the rows to iterate. */
  datatype Response = Failed(error: Error) | Rows(rows: seq<Row>)

  /** The rows of an answer: one single-column text row per value, or one row holding the count. */
  function AsRows(a: Answer): seq<Row> {
    match a
    case Values(vs) => seq(|vs|, i requires 0 <= i < |vs| => [TextCell(vs[i])])
    case Number(n) => [[IntCell(n)]]
  }

  /** `db.QueryContext`: the statement evaluated over the table. */
  function Query(ctx: Context, q: Select, log: seq<Entry>): Response {
    if ctx.Done? then Failed(EngineError) else Rows(AsRows(Eval(q, log)))
  }

  /** `db.ExecContext`: the new table, or an error and no change. */
  function Exec(ctx: Context, cmd: Command, log: seq<Entry>): Result<seq<Entry>, Error> {
    if ctx.Done? then Failure(EngineError) else Success(Apply(cmd, log))
  }

  function DigitChar(d: nat): char
    requires d < 10
  {
    "0123456789"[d]
  }

  function Digits(n: nat): string
    decreases n
  {
    if n < 10 then [DigitChar(n)] else Digits(n / 10) + [DigitChar(n % 10)]
  }

  /** The decimal text Go gives an integer cell scanned into a string. */
  function Decimal(n: int): string {
    if n < 0 then "-" + Digits(-n) else Digits(n)
  }

  /** `rows.Scan(&s)` for a string `s`: exactly one column, of either kind. */
  function ScanText(row: Row): (r: Option<string>)
    ensures r.Some? <==> |row| == 1
    ensures |row| == 1 && row[0].TextCell? ==> r == Some(row[0].text)
  {
    if |row| != 1 then None
    else match row[0]
      case TextCell(t) => Some(t)
      case IntCell(n) => Some(Decimal(n))
  }

  /** `row.Scan(&n)` for an integer `n`: exactly one column, holding an integer. */
  function ScanInt(row: Row): (r: Option<int>)
    ensures r.Some? <==> |row| == 1 && row[0].IntCell?
  {
    if |row| == 1 && row[0].IntCell? then Some(row[0].number) else None
  }

  /** The engine's own rows always scan: text rows into strings, the count row into an integer. */
  lemma AnswerRowsScan(a: Answer)
    ensures a.Values? ==> |AsRows(a)| == |a.values|
    ensures a.Values? ==> forall i :: 0 <= i < |a.values| ==> ScanText(AsRows(a)[i]) == Some(a.values[i])
    ensures a.Number? ==> AsRows(a) != [] && ScanInt(AsRows(a)[0]) == Some(a.number)
  {
  }
}
