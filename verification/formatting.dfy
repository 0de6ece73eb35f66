/** Display values of both components: the date and amount formatters and
    the summary total. Locale rendering belongs to the browser's `Intl`
    library, so a formatted value is kept symbolically (which rendering of
    which input); only the placeholder branches are spelled out. */
module Formatting {
  import opened Maybe
  import opened Backend

  /** The two date renderings: `toLocaleDateString()` with the browser's
      defaults, and the `en-US` short-month form (`Jan 5, 2024`). */
  datatype DateStyle = BrowserDefault | UsShortMonth

  /** A table cell: literal text, or the locale rendering of an input. */
  datatype Display =
    | Text(text: string)
    | LocaleDate(source: string, style: DateStyle)
    | Currency(amount: real)

  /** `!dateString`: a date is missing when absent, `null` or empty. */
  predicate MissingDate(d: Option<string>) {
    d.None? || d.value == []
  }

  /** `formatDate` of the login-then-fetch component: the empty string for
      a missing date, otherwise the browser-default rendering. */
  function SessionFormatDate(d: Option<string>): (r: Display)
    ensures r.Text? <==> MissingDate(d)
    ensures r.Text? ==> r.text == ""
    ensures !MissingDate(d) ==> r == LocaleDate(d.value, BrowserDefault)
  {
    if MissingDate(d) then Text("") else LocaleDate(d.value, BrowserDefault)
  }

  /** `formatCurrency` of the login-then-fetch component: `amount || 0`,
      so a missing amount is rendered as zero dollars, never as a
      placeholder. */
  function SessionFormatCurrency(amount: Option<real>): (r: Display)
    ensures r.Currency?
    ensures amount.Some? ==> r.amount == amount.value
  {
    Currency(amount.GetOr(0.0))
  }

  /** A missing amount and a zero amount look the same. */
  lemma MissingCurrencyIsZero()
    ensures SessionFormatCurrency(None) == SessionFormatCurrency(Some(0.0))
  {
  }

  /** `formatDate` of the invoice list: `-` for a missing date, otherwise
      the `en-US` short-month rendering. */
  function ListFormatDate(d: Option<string>): (r: Display)
    ensures r.Text? <==> MissingDate(d)
    ensures r.Text? ==> r.text == "-"
    ensures !MissingDate(d) ==> r == LocaleDate(d.value, UsShortMonth)
  {
    if MissingDate(d) then Text("-") else LocaleDate(d.value, UsShortMonth)
  }

  /** `formatAmount` of the invoice list: `-` only for `null` or
      `undefined`; every present amount, zero included, is rendered. */
  function FormatAmount(amount: Option<real>): (r: Display)
    ensures r.Text? <==> amount.None?
    ensures r.Text? ==> r.text == "-"
    ensures amount.Some? ==> r == Currency(amount.value)
  {
    match amount
    case None => Text("-")
    case Some(v) => Currency(v)
  }

  /** The two list formatters differ on zero-like input: an empty date is
      a placeholder, a zero amount is not. */
  lemma ZeroAmountIsFormatted()
    ensures FormatAmount(Some(0.0)) == Currency(0.0)
    ensures ListFormatDate(Some("")) == Text("-")
  {
  }

  /** `inv.DocTotal || 0`: the amount an invoice adds to the total. A
      missing amount counts as zero, exactly as the other component's
      `formatCurrency` renders it. */
  function Amount(inv: Invoice): (r: real)
    ensures inv.docTotal.None? ==> r == 0.0
    ensures inv.docTotal.Some? ==> r == inv.docTotal.value
    ensures SessionFormatCurrency(inv.docTotal) == Currency(r)
  {
    inv.docTotal.GetOr(0.0)
  }

  /** The summary total: `reduce((sum, inv) => sum + (inv.DocTotal || 0), 0)`,
      a left fold, so defined by its last element. Zero for no invoices;
      never negative when no amount is. */
  function Total(invoices: seq<Invoice>): (t: real)
    ensures invoices == [] ==> t == 0.0
    ensures (forall i :: 0 <= i < |invoices| ==> Amount(invoices[i]) >= 0.0) ==> t >= 0.0
  {
    if invoices == [] then 0.0
    else Total(invoices[..|invoices| - 1]) + Amount(invoices[|invoices| - 1])
  }

  /** The `reduce` loop itself computes `Total`. */
  method SumTotals(invoices: seq<Invoice>) returns (sum: real)
    ensures sum == Total(invoices)
  {
    sum := 0.0;
    var i := 0;
    while i < |invoices|
      invariant 0 <= i <= |invoices|
      invariant sum == Total(invoices[..i])
    {
      assert invoices[..i + 1][..i] == invoices[..i];
      sum := sum + Amount(invoices[i]);
      i := i + 1;
    }
    assert invoices[..i] == invoices;
  }

  /** The total of a concatenation is the sum of the totals. */
  lemma {:induction false} TotalAppend(a: seq<Invoice>, b: seq<Invoice>)
    ensures Total(a + b) == Total(a) + Total(b)
    decreases |b|
  {
    if b == [] {
      assert a + b == a;
    } else {
      var n := |b| - 1;
      assert (a + b)[..|a + b| - 1] == a + b[..n];
      TotalAppend(a, b[..n]);
    }
  }

  /** The total of one invoice is its amount. */
  lemma TotalSingle(inv: Invoice)
    ensures Total([inv]) == Amount(inv)
  {
    assert [inv][..0] == [];
  }

  /** The total does not depend on the order of the invoices. */
  lemma {:induction false} TotalPermutation(a: seq<Invoice>, b: seq<Invoice>)
    requires multiset(a) == multiset(b)
    ensures Total(a) == Total(b)
    decreases |a|
  {
    if a == [] {
      assert b == [] by {
        assert |b| == |multiset(b)| == 0;
      }
    } else {
      var x := a[0];
      assert x in multiset(b);
      var j :| 0 <= j < |b| && b[j] == x;
      var rest := b[..j] + b[j + 1..];
      assert b == b[..j] + [x] + b[j + 1..];
      assert a == [x] + a[1..];
      assert multiset(a[1..]) == multiset(rest) by {
        assert multiset(a) == multiset(a[1..]) + multiset{x};
        assert multiset(b) == multiset(rest) + multiset{x} by {
          assert b == b[..j] + [x] + b[j + 1..];
        }
        assert multiset(a[1..]) == multiset(a) - multiset{x};
        assert multiset(rest) == multiset(b) - multiset{x};
      }
      TotalPermutation(a[1..], rest);
      TotalAppend([x], a[1..]);
      TotalAppend(b[..j] + [x], b[j + 1..]);
      TotalAppend(b[..j], [x]);
      TotalAppend(b[..j], b[j + 1..]);
      TotalSingle(x);
    }
  }

  /** Ten and a half, a missing amount and five add up to fifteen and a
      half. */
  lemma TotalExample()
    ensures Total([Invoice(None, None, Some(10.50)), Invoice(None, None, None), Invoice(None, None, Some(5.00))]) == 15.50
  {
    var a, b, c := Invoice(None, None, Some(10.50)), Invoice(None, None, None), Invoice(None, None, Some(5.00));
    assert [a, b, c][..2] == [a, b];
    assert [a, b][..1] == [a];
    assert [a][..0] == [];
  }
}
