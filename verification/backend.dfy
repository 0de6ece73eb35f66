/** The Service Layer as the two components see it. Network calls are
    replaced by the values they produce: a transport failure, or a response
    with its `ok` flag, its `set-cookie` header and its JSON body. */
module Backend {
  import opened Maybe

  /** One invoice as selected by `$select=DocDate,DocNum,DocTotal`; any
      field may be missing. `DocTotal` is a decimal amount. */
  datatype Invoice = Invoice(docDate: Option<string>, docNum: Option<int>, docTotal: Option<real>)

  /** The result of `response.json()`: the parsed body, or the message of
      the error it throws on a body that is not JSON. */
  datatype Body<+B> = Parsed(content: B) | Malformed(message: string)

  /** What `await fetch(...)` gives: a rejection with an error message (no
      connectivity, CORS), or a response. */
  datatype Response<+B> =
    | Unreachable(message: string)
    | Reply(ok: bool, setCookie: Option<string>, body: Body<B>)

  /** A JSON field as JavaScript reads it: absent (`undefined`), `null`,
      or a string. */
  datatype SessionField = Absent | Null | Id(id: string)

  /** The login body; only its `SessionId` field is read. */
  datatype LoginBody = LoginBody(sessionId: SessionField)

  /** The invoice list body; `value` is missing or `null` for no matches. */
  datatype InvoicesBody = InvoicesBody(value: Option<seq<Invoice>>)

  /** The response was `ok` and its body parsed: the only case in which
      either component reads the body. */
  predicate Succeeded<B>(r: Response<B>) {
    r.Reply? && r.ok && r.body.Parsed?
  }

  /** `data.value || []`: the invoices of the body, an empty list when
      `value` is missing. */
  function ValueOrEmpty(b: InvoicesBody): (r: seq<Invoice>)
    ensures b.value.Some? ==> r == b.value.value
    ensures b.value.None? ==> r == []
  {
    b.value.GetOr([])
  }

  const InvoicesQuery := "https://service.sboweb.site/b1s/v2/Invoices?$select=DocDate,DocNum,DocTotal&$filter=CardCode eq '"

  /** The invoice request URL: only the customer's invoices, only the three
      selected fields. */
  function InvoicesUrl(customerCode: string): (url: string)
    ensures |url| == |InvoicesQuery| + |customerCode| + 1
    ensures url[..|InvoicesQuery|] == InvoicesQuery
    ensures url[|InvoicesQuery|..|url| - 1] == customerCode
    ensures url[|url| - 1] == '\''
  {
    InvoicesQuery + customerCode + "'"
  }
}
