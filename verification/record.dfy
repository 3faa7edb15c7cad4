/**
 * The record decoder: one stored row of the SIMPLES table becomes a
 * `DadosSimples` record, with its four date columns turned from the stored
 * `YYYYMMDD` form into the displayed `DD/MM/YYYY` form.
 */
module Record {

  /** A row of the SIMPLES table: exactly seven text columns, CNPJ_BASE first. */
  type Row = r: seq<string> | |r| == 7 witness ["", "", "", "", "", "", ""]

  /** ASCII digits only; Unicode digits are not modelled. */
  predicate IsDigit(c: char) {
    '0' <= c <= '9'
  }

  predicate AllDigits(s: string) {
    forall i :: 0 <= i < |s| ==> IsDigit(s[i])
  }

  /** The stored date form that gets reformatted: eight digits, `YYYYMMDD`. */
  predicate IsRawDate(s: string) {
    |s| == 8 && AllDigits(s)
  }

  /** The displayed date form: `DD/MM/YYYY`, digits everywhere but the two slashes. */
  predicate IsDisplayDate(d: string) {
    && |d| == 10
    && d[2] == '/'
    && d[5] == '/'
    && forall i :: 0 <= i < 10 && i != 2 && i != 5 ==> IsDigit(d[i])
  }

  /** Reads a displayed date back into the stored `YYYYMMDD` form. */
  function ParseDisplayDate(d: string): (s: string)
    requires IsDisplayDate(d)
    ensures IsRawDate(s)
  {
    var s := d[6..10] + d[3..5] + d[0..2];
    assert forall i :: 0 <= i < 4 ==> s[i] == d[6 + i];
    assert forall i :: 4 <= i < 6 ==> s[i] == d[i - 1];
    assert forall i :: 6 <= i < 8 ==> s[i] == d[i - 6];
    s
  }

  /**
   * How a stored value is shown: an eight-digit value appears as the display
   * date that reads back to it; anything else appears unchanged.
   */
  predicate Renders(raw: string, shown: string) {
    if IsRawDate(raw) then IsDisplayDate(shown) && ParseDisplayDate(shown) == raw
    else shown == raw
  }

  /** `_format_date`: purely positional, no calendar validation. */
  function FormatDate(s: string): (r: string)
    ensures Renders(s, r)
  {
    if IsRawDate(s) then
      var r := s[6..8] + "/" + s[4..6] + "/" + s[0..4];
      assert forall i :: 0 <= i < 2 ==> r[i] == s[6 + i];
      assert forall i :: 3 <= i < 5 ==> r[i] == s[i + 1];
      assert forall i :: 6 <= i < 10 ==> r[i] == s[i - 6];
      assert r[6..10] + r[3..5] + r[0..2] == s;
      r
    else
      s
  }

  /** Every display date is the formatting of the stored value it reads back to. */
  lemma FormatParseRoundTrip(d: string)
    requires IsDisplayDate(d)
    ensures FormatDate(ParseDisplayDate(d)) == d
  {
    var s := ParseDisplayDate(d);
    var r := FormatDate(s);
    assert forall i :: 0 <= i < 10 ==> r[i] == d[i];
  }

  /** A stored value determines what is shown: `Renders` is a function. */
  lemma RendersUnique(raw: string, a: string, b: string)
    requires Renders(raw, a) && Renders(raw, b)
    ensures a == b
  {
    if IsRawDate(raw) {
      FormatParseRoundTrip(a);
      FormatParseRoundTrip(b);
    }
  }

  /** Distinct eight-digit values are shown differently. */
  lemma FormatDateInjective(a: string, b: string)
    requires IsRawDate(a) && IsRawDate(b)
    requires FormatDate(a) == FormatDate(b)
    ensures a == b
  {
  }

  /** Formatting an already formatted value changes nothing. */
  lemma FormatDateIdempotent(s: string)
    ensures FormatDate(FormatDate(s)) == FormatDate(s)
  {
  }

  /**
   * Across both branches the formatting is not injective: a stored value
   * that already has the display shape is shown unchanged, exactly like the
   * eight-digit value it spells.
   */
  lemma DisplayShapedValuePassesThrough(d: string)
    requires IsDisplayDate(d)
    ensures FormatDate(d) == d == FormatDate(ParseDisplayDate(d))
  {
    assert !IsRawDate(d);
    FormatParseRoundTrip(d);
  }

  /** `DadosSimples`: the seven columns, dates as displayed. */
  datatype Simples = Simples(
    cnpjBase: string,
    opcaoSimples: string,
    dataOpcaoSimples: string,
    dataExclusaoSimples: string,
    opcaoMei: string,
    dataOpcaoMei: string,
    dataExclusaoMei: string)

  function Decode(row: Row): (r: Simples)
    ensures r.cnpjBase == row[0] && r.opcaoSimples == row[1] && r.opcaoMei == row[4]
    ensures Renders(row[2], r.dataOpcaoSimples)
    ensures Renders(row[3], r.dataExclusaoSimples)
    ensures Renders(row[5], r.dataOpcaoMei)
    ensures Renders(row[6], r.dataExclusaoMei)
  {
    Simples(row[0], row[1], FormatDate(row[2]), FormatDate(row[3]),
            row[4], FormatDate(row[5]), FormatDate(row[6]))
  }
}
