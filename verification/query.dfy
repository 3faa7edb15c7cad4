/**
 * `consulta`: a CNPJ in any formatting is reduced to its first eight digits
 * (CNPJ_BASE) and looked up exactly in the SIMPLES table.
 */
module Query {
  import opened Wrappers
  import opened Record
  import opened Store
  import opened Loader

  /** `re.sub(r'\D', '', cnpj)`: the digits of `s`, in order. */
  function Digits(s: string): string
    decreases |s|
  {
    if |s| == 0 then ""
    else if IsDigit(s[0]) then [s[0]] + Digits(s[1..])
    else Digits(s[1..])
  }

  /** Only digits survive, none are invented, and an all-digit string is kept whole. */
  lemma {:induction false} DigitsFilter(s: string)
    ensures AllDigits(Digits(s))
    ensures |Digits(s)| <= |s|
    ensures AllDigits(s) ==> Digits(s) == s
    decreases |s|
  {
    if |s| > 0 {
      DigitsFilter(s[1..]);
    }
  }

  lemma {:induction false} DigitsAppend(a: string, b: string)
    ensures Digits(a + b) == Digits(a) + Digits(b)
    decreases |a|
  {
    if |a| == 0 {
      assert a + b == b;
    } else {
      assert (a + b)[0] == a[0];
      assert (a + b)[1..] == a[1..] + b;
      DigitsAppend(a[1..], b);
    }
  }

  /** A string without digits contributes nothing. */
  lemma {:induction false} DigitsOfSeparators(sep: string)
    requires forall i :: 0 <= i < |sep| ==> !IsDigit(sep[i])
    ensures Digits(sep) == ""
    decreases |sep|
  {
    if |sep| > 0 {
      DigitsOfSeparators(sep[1..]);
    }
  }

  function Min(a: int, b: int): int {
    if a <= b then a else b
  }

  /** The lookup key: at most eight digits, the first digits of the input in order. */
  function NormaliseCnpj(cnpj: string): (k: string)
    ensures AllDigits(k)
    ensures |k| == Min(8, |Digits(cnpj)|)
    ensures k == Digits(cnpj)[..|k|]
  {
    var d := Digits(cnpj);
    DigitsFilter(cnpj);
    if |d| <= 8 then d else d[..8]
  }

  /** Separators interspersed anywhere leave the key unchanged. */
  lemma NormaliseIgnoresSeparators(a: string, sep: string, b: string)
    requires forall i :: 0 <= i < |sep| ==> !IsDigit(sep[i])
    ensures NormaliseCnpj(a + sep + b) == NormaliseCnpj(a + b)
  {
    DigitsAppend(a + sep, b);
    DigitsAppend(a, sep);
    DigitsAppend(a, b);
    DigitsOfSeparators(sep);
    assert Digits(a) + "" == Digits(a);
  }

  /** An identifier of at least eight digits is keyed by its first eight. */
  lemma NormaliseDigitString(s: string)
    requires AllDigits(s) && |s| >= 8
    ensures NormaliseCnpj(s) == s[..8]
  {
    DigitsFilter(s);
  }

  /** A key is its own normal form. */
  lemma NormaliseIdempotent(s: string)
    ensures NormaliseCnpj(NormaliseCnpj(s)) == NormaliseCnpj(s)
  {
    DigitsFilter(NormaliseCnpj(s));
  }

  /** One punctuation character contributes no digit. */
  lemma DigitsOfPunctuation(a: string, p: char)
    requires !IsDigit(p)
    ensures Digits(a + [p]) == Digits(a)
  {
    DigitsAppend(a, [p]);
    assert [p][1..] == [];
  }

  /**
   * A CNPJ written `AA.BBB.CCC/DDDD-EE` is keyed by `AABBBCCC`, its eight-digit
   * base, whatever the branch and check digits.
   */
  lemma FormattedCnpjKey(a: string, b: string, c: string, d: string, e: string)
    requires AllDigits(a) && AllDigits(b) && AllDigits(c) && AllDigits(d) && AllDigits(e)
    requires |a| == 2 && |b| == 3 && |c| == 3
    ensures NormaliseCnpj(a + "." + b + "." + c + "/" + d + "-" + e) == a + b + c
  {
    DigitsFilter(a);
    DigitsFilter(b);
    DigitsFilter(c);
    DigitsFilter(d);
    DigitsFilter(e);
    var s1 := a + ".";
    DigitsOfPunctuation(a, '.');
    var s2 := s1 + b;
    DigitsAppend(s1, b);
    var s3 := s2 + ".";
    DigitsOfPunctuation(s2, '.');
    var s4 := s3 + c;
    DigitsAppend(s3, c);
    var s5 := s4 + "/";
    DigitsOfPunctuation(s4, '/');
    var s6 := s5 + d;
    DigitsAppend(s5, d);
    var s7 := s6 + "-";
    DigitsOfPunctuation(s6, '-');
    var s8 := s7 + e;
    DigitsAppend(s7, e);
    assert s8 == a + "." + b + "." + c + "/" + d + "-" + e;
    assert Digits(s8) == a + b + c + d + e;
    assert (a + b + c + d + e)[..8] == a + b + c;
  }

  /** `consulta`: no database or no row under the key gives nothing. */
  function Consulta(disk: Disk, cnpj: string): (r: Option<Simples>)
    ensures r.Some? <==> disk.Some? && NormaliseCnpj(cnpj) in disk.value.simples
    ensures r.Some? ==> r.value == Decode(disk.value.simples[NormaliseCnpj(cnpj)])
  {
    match disk
    case None => None
    case Some(s) =>
      var key := NormaliseCnpj(cnpj);
      if key in s.simples then Some(Decode(s.simples[key])) else None
  }

  /** On a store whose rows sit under their own keys, a hit carries the normalised key. */
  lemma ConsultaReturnsKey(disk: Disk, cnpj: string)
    requires disk.Some? ==> WellKeyed(disk.value.simples)
    ensures Consulta(disk, cnpj).Some? ==> Consulta(disk, cnpj).value.cnpjBase == NormaliseCnpj(cnpj)
  {
  }

  /**
   * After a full reload, a lookup finds the last accepted row whose CNPJ_BASE
   * is the normalised key, and nothing when no accepted row has it.
   */
  lemma ConsultaAfterReload(disk: Disk, rows: seq<seq<string>>, version: int, now: int, cnpj: string)
    ensures var d := Some(LoadCsv(DbInit(disk).value, Some(rows), version, now));
      match LastIndexOf(Accepted(rows), NormaliseCnpj(cnpj))
      case None => Consulta(d, cnpj) == None
      case Some(i) => Consulta(d, cnpj) == Some(Decode(Accepted(rows)[i]))
  {
    ApplyAllLastWins(map[], Accepted(rows), NormaliseCnpj(cnpj));
  }

  /**
   * The scenario identifier is keyed by its first eight digits, and a freshly
   * reset store has no row under that key.
   */
  lemma ConsultaEmptyStore(disk: Disk)
    ensures NormaliseCnpj("11.222.333/0001-81") == "11222333"
    ensures Consulta(DbInit(disk), "11.222.333/0001-81") == None
  {
    FormattedCnpjKey("11", "222", "333", "0001", "81");
    assert "11" + "." + "222" + "." + "333" + "/" + "0001" + "-" + "81" == "11.222.333/0001-81";
    assert "11" + "222" + "333" == "11222333";
  }

  /** How the two scenario dates are shown. */
  lemma ScenarioDates()
    ensures FormatDate("20210101") == "01/01/2021"
    ensures FormatDate("20210202") == "02/02/2021"
    ensures FormatDate("") == ""
  {
    var a := "20210101";
    var b := "20210202";
    assert IsRawDate(a) && a[6..8] == "01" && a[4..6] == "01" && a[0..4] == "2021";
    assert IsRawDate(b) && b[6..8] == "02" && b[4..6] == "02" && b[0..4] == "2021";
  }

  /** Both scenario rows are accepted, and the second is the last with their key. */
  lemma ScenarioRows(rows: seq<seq<string>>)
    requires rows == [["11222333", "S", "20200101", "", "N", "", ""],
                      ["11222333", "N", "", "20210101", "S", "20210202", ""]]
    ensures Accepted(rows) == rows
    ensures LastIndexOf(Accepted(rows), "11222333") == Some(1)
  {
    assert Accepted(rows[1..][1..]) == [];
    assert Accepted(rows[1..]) == [rows[1]];
  }

  /** Two rows with one key in the same batch: the second one is what a lookup shows. */
  lemma LastWriteWinsScenario(disk: Disk, version: int, now: int)
    ensures var rows := [["11222333", "S", "20200101", "", "N", "", ""],
                         ["11222333", "N", "", "20210101", "S", "20210202", ""]];
      var d := Some(LoadCsv(DbInit(disk).value, Some(rows), version, now));
      Consulta(d, "11222333")
        == Some(Simples("11222333", "N", "", "01/01/2021", "S", "02/02/2021", ""))
  {
    var rows := [["11222333", "S", "20200101", "", "N", "", ""],
                 ["11222333", "N", "", "20210101", "S", "20210202", ""]];
    ScenarioRows(rows);
    assert AllDigits("11222333");
    DigitsFilter("11222333");
    ConsultaAfterReload(disk, rows, version, now, "11222333");
    ScenarioDates();
  }
}
