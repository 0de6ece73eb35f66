/** The single-fetch invoice list: one request on mount, its outcome in
    three state variables, and the view those variables select. */
module InvoicesList {
  import opened Maybe
  import opened Backend
  import opened Formatting

  const ErrorPrefix := "Failed to load invoice data: "
  const NotOkMessage := "Failed to fetch invoices"

  /** `invoices`, `loading`, `error` (`null` is `None`). The component only
      ever sets a prefixed, hence non-empty, message; an empty one would be
      falsy and select no alert. */
  datatype State = State(invoices: seq<Invoice>, loading: bool, error: Option<string>)

  /** The first render: no invoices, loading, no error. */
  const Initial := State([], true, None)

  /** The message thrown inside the `try` of `fetchInvoices`, or the list
      it stores: a rejected `fetch` and a body that is not JSON pass their
      own message on; a non-ok status throws `Failed to fetch invoices`. */
  function Outcome(r: Response<InvoicesBody>): (res: Result<seq<Invoice>>)
    ensures res.Ok? <==> Succeeded(r)
    ensures res.Ok? ==> res.value == ValueOrEmpty(r.body.content)
    ensures r.Reply? && !r.ok ==> res == Err(NotOkMessage)
  {
    match r
    case Unreachable(m) => Err(m)
    case Reply(ok, _, body) =>
      if !ok then Err(NotOkMessage)
      else match body
        case Malformed(m) => Err(m)
        case Parsed(b) => Ok(ValueOrEmpty(b))
  }

  /** The first two statements of `fetchInvoices`. */
  function Begin(s: State): (r: State)
    ensures r.loading && r.error.None?
    ensures r.invoices == s.invoices
  {
    s.(loading := true, error := None)
  }

  /** A whole call of `fetchInvoices`: `Begin`, then the `try`/`catch`/
      `finally` once the answer is in. A failure is reported with the
      prefix and leaves the invoices alone, a success stores the list, and `loading` is off either way. */
  function Fetch(s: State, r: Response<InvoicesBody>): (t: State)
    ensures !t.loading
    ensures t.error.None? <==> Succeeded(r)
    ensures t.error.Some? ==> t.invoices == s.invoices
    ensures t.error.Some? ==> |t.error.value| >= |ErrorPrefix| && t.error.value[..|ErrorPrefix|] == ErrorPrefix
    ensures t.error.None? ==> t.invoices == ValueOrEmpty(r.body.content)
  {
    var started := Begin(s);
    match Outcome(r)
    case Err(m) => started.(error := Some(ErrorPrefix + m), loading := false)
    case Ok(list) => started.(invoices := list, loading := false)
  }

  /** A non-ok status gives exactly the message
      `Failed to load invoice data: Failed to fetch invoices` and leaves the
      invoices as they were. */
  lemma NotOkMessageIsFixed(s: State, r: Response<InvoicesBody>)
    requires r.Reply? && !r.ok
    ensures Fetch(s, r) == s.(loading := false, error := Some(ErrorPrefix + NotOkMessage))
  {
  }

  /** A successful answer without `value` (absent or `null`) leaves an
      empty list and no error, and so does one with an empty `value`. */
  lemma MissingValueIsEmpty(s: State, cookie: Option<string>)
    ensures Fetch(s, Reply(true, cookie, Parsed(InvoicesBody(None)))) == State([], false, None)
    ensures Fetch(s, Reply(true, cookie, Parsed(InvoicesBody(Some([]))))) == State([], false, None)
  {
  }

  /** The page body under the table header. */
  datatype Body = Skeleton | NoInvoices | Rows(rows: seq<Row>)

  /** One table row: formatted date, `#` and the document number, formatted
      amount. */
  datatype Row = Row(date: Display, number: Option<int>, amount: Display)

  /** The footer: the formatted total and the invoice count. */
  datatype Summary = Summary(total: Display, count: nat)

  /** What the component renders: the error alert alone, or the page with
      its invoice count, its body and, maybe, the footer. */
  datatype View =
    | ErrorAlert(message: string)
    | Page(count: nat, body: Body, summary: Option<Summary>)

  /** One table row: the date cell is `-` exactly for a missing date, the
      number is shown as is, and the amount cell is `-` exactly for a
      missing amount; otherwise it shows what the invoice adds to the
      total. */
  function RowOf(inv: Invoice): (row: Row)
    ensures row.number == inv.docNum
    ensures row.date.Text? <==> MissingDate(inv.docDate)
    ensures row.date.Text? ==> row.date.text == "-"
    ensures row.amount.Text? <==> inv.docTotal.None?
    ensures row.amount.Text? ==> row.amount.text == "-"
    ensures !row.amount.Text? ==> row.amount == Currency(Amount(inv))
  {
    Row(ListFormatDate(inv.docDate), inv.docNum, FormatAmount(inv.docTotal))
  }

  /** `invoices.map(...)`: one row per invoice, in order. */
  function RowsOf(invoices: seq<Invoice>): (rows: seq<Row>)
    ensures |rows| == |invoices|
    ensures forall i :: 0 <= i < |invoices| ==> rows[i] == RowOf(invoices[i])
  {
    seq(|invoices|, i requires 0 <= i < |invoices| => RowOf(invoices[i]))
  }

  /** The render function: the error alert whenever an error is set;
      otherwise the skeleton while loading, the "No invoices found" row
      for an empty list, the rows for the others, and the footer exactly
      when the list is non-empty and nothing is loading. */
  function Render(s: State): (v: View)
    ensures v.ErrorAlert? <==> s.error.Some? && s.error.value != []
    ensures v.ErrorAlert? ==> v.message == s.error.value
    ensures v.Page? ==> v.count == |s.invoices|
    ensures v.Page? ==> (v.body.Skeleton? <==> s.loading)
    ensures v.Page? ==> (v.body.NoInvoices? <==> !s.loading && s.invoices == [])
    ensures v.Page? && v.body.Rows? ==> v.body.rows == RowsOf(s.invoices) && s.invoices != []
    ensures v.Page? ==> (v.summary.Some? <==> s.invoices != [] && !s.loading)
    ensures v.Page? && v.summary.Some? ==>
              v.summary.value == Summary(FormatAmount(Some(Total(s.invoices))), |s.invoices|)
  {
    if s.error.Some? && s.error.value != [] then ErrorAlert(s.error.value)
    else
      var body := if s.loading then Skeleton else if s.invoices == [] then NoInvoices else Rows(RowsOf(s.invoices));
      var summary := if s.invoices != [] && !s.loading
                     then Some(Summary(FormatAmount(Some(Total(s.invoices))), |s.invoices|))
                     else None;
      Page(|s.invoices|, body, summary)
  }

  /** The first render, and every render during a fetch, shows the
      skeleton and no footer. */
  lemma LoadingShowsSkeleton(s: State)
    ensures Render(Initial) == Page(0, Skeleton, None)
    ensures Render(Begin(s)).Page? && Render(Begin(s)).body.Skeleton? && Render(Begin(s)).summary.None?
  {
  }

  /** After a failed fetch only the alert is shown, with the prefixed
      message. */
  lemma FailedFetchShowsAlert(s: State, r: Response<InvoicesBody>)
    requires !Succeeded(r)
    ensures Render(Fetch(s, r)).ErrorAlert?
    ensures Render(Fetch(s, r)).message[..|ErrorPrefix|] == ErrorPrefix
  {
  }

  /** After a successful fetch: no error, the "No invoices found" row
      exactly when nothing came back, otherwise one row per invoice and the
      footer with the total of the invoices' amounts. */
  lemma SucceededFetchShowsList(s: State, r: Response<InvoicesBody>)
    requires Succeeded(r)
    ensures Render(Fetch(s, r)).Page?
    ensures Render(Fetch(s, r)).body.NoInvoices? <==> ValueOrEmpty(r.body.content) == []
    ensures ValueOrEmpty(r.body.content) != [] ==>
              Render(Fetch(s, r)) ==
                Page(|ValueOrEmpty(r.body.content)|,
                     Rows(RowsOf(ValueOrEmpty(r.body.content))),
                     Some(Summary(FormatAmount(Some(Total(ValueOrEmpty(r.body.content)))), |ValueOrEmpty(r.body.content)|)))
  {
  }

  /** The footer total ignores the order of the invoices. */
  lemma SummaryIgnoresOrder(a: State, b: State)
    requires a.error.None? && b.error.None? && a.loading == b.loading
    requires multiset(a.invoices) == multiset(b.invoices)
    ensures Render(a).summary == Render(b).summary
  {
    TotalPermutation(a.invoices, b.invoices);
    assert |a.invoices| == |multiset(a.invoices)| == |multiset(b.invoices)| == |b.invoices|;
  }
}
