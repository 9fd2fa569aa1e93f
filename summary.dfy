/**
 * The summary block of the /consulta-cedula response: total, first record,
 * cedula list, distinct universities and states in first-seen order, the
 * numeric years and their maximum.
 */
module Summary {
  import opened Wrappers
  import opened Extract

  // ---------------------------------------------------------------------
  // Array.from(new Set(xs.filter(Boolean)))
  // ---------------------------------------------------------------------

  /** The non-empty values of `xs`, each kept at its first occurrence (Set insertion order). */
  function Distinct(xs: seq<string>): (r: seq<string>)
    decreases |xs|
    ensures "" !in r && NoDuplicates(r)
    ensures forall x :: x in r ==> x in xs
  {
    if xs == [] then []
    else
      var r := Distinct(xs[..|xs| - 1]);
      var x := xs[|xs| - 1];
      if x == "" || x in r then r else r + [x]
  }

  predicate NoDuplicates(r: seq<string>) {
    forall i, j :: 0 <= i < j < |r| ==> r[i] != r[j]
  }

  /** Every occurrence of `b` in `xs` comes after some occurrence of `a`. */
  predicate SeenBefore(xs: seq<string>, a: string, b: string) {
    forall k :: 0 <= k < |xs| && xs[k] == b ==> a in xs[..k]
  }

  /** `r` lists the distinct non-empty values of `xs`, ordered by first occurrence in `xs`. */
  ghost predicate DistinctOf(r: seq<string>, xs: seq<string>) {
    (forall x :: x in r <==> x in xs && x != "") &&
    NoDuplicates(r) &&
    forall i, j :: 0 <= i < j < |r| ==> SeenBefore(xs, r[i], r[j])
  }

  /** An order fact about `p` survives appending, provided the earlier value occurs in `p`. */
  lemma SeenBeforeExtend(p: seq<string>, x: string, a: string, b: string)
    requires SeenBefore(p, a, b) && a in p
    ensures SeenBefore(p + [x], a, b)
  {
    var xs := p + [x];
    forall k | 0 <= k < |xs| && xs[k] == b ensures a in xs[..k] {
      if k < |p| {
        assert xs[k] == p[k];
        assert xs[..k] == p[..k];
      } else {
        assert xs[..k] == p;
      }
    }
  }

  /** Appending an empty or already-listed value leaves the output as it is. */
  lemma DistinctOfAppendRepeat(r: seq<string>, p: seq<string>, x: string)
    requires DistinctOf(r, p)
    requires x == "" || x in r
    ensures DistinctOf(r, p + [x])
  {
    forall i, j | 0 <= i < j < |r| ensures SeenBefore(p + [x], r[i], r[j]) {
      assert r[i] in r;
      SeenBeforeExtend(p, x, r[i], r[j]);
    }
  }

  /** Appending a new non-empty value appends it to the output. */
  lemma DistinctOfAppendNew(r: seq<string>, p: seq<string>, x: string)
    requires DistinctOf(r, p)
    requires x != "" && x !in r
    ensures DistinctOf(r + [x], p + [x])
  {
    var r2, xs := r + [x], p + [x];
    assert x !in p;
    forall i, j | 0 <= i < j < |r2| ensures SeenBefore(xs, r2[i], r2[j]) {
      assert r2[i] == r[i] && r[i] in r;
      if j < |r| {
        SeenBeforeExtend(p, x, r[i], r[j]);
      } else {
        forall k | 0 <= k < |xs| && xs[k] == x ensures r[i] in xs[..k] {
          assert k == |p|;
          assert xs[..k] == p;
        }
      }
    }
  }

  lemma {:induction false} DistinctIsDistinctOf(xs: seq<string>)
    ensures DistinctOf(Distinct(xs), xs)
    decreases |xs|
  {
    if xs != [] {
      var p, x := xs[..|xs| - 1], xs[|xs| - 1];
      assert xs == p + [x];
      DistinctIsDistinctOf(p);
      if x == "" || x in Distinct(p) {
        DistinctOfAppendRepeat(Distinct(p), p, x);
      } else {
        DistinctOfAppendNew(Distinct(p), p, x);
      }
    }
  }

  lemma SeenBeforeInPrefix(p: seq<string>, x: string, a: string, b: string)
    requires SeenBefore(p + [x], a, b)
    ensures SeenBefore(p, a, b)
  {
    forall k | 0 <= k < |p| && p[k] == b ensures a in p[..k] {
      assert (p + [x])[k] == b;
      assert (p + [x])[..k] == p[..k];
    }
  }

  /** Appending an empty or already-seen value keeps the characterization. */
  lemma DistinctOfDropRepeat(r: seq<string>, p: seq<string>, x: string)
    requires DistinctOf(r, p + [x])
    requires x == "" || x in p
    ensures DistinctOf(r, p)
  {
    forall i, j | 0 <= i < j < |r| ensures SeenBefore(p, r[i], r[j]) {
      SeenBeforeInPrefix(p, x, r[i], r[j]);
    }
  }

  /** A value absent from `p` precedes nothing of `p` once appended. */
  lemma NotSeenBeforeNew(p: seq<string>, x: string, b: string)
    requires x !in p && b in p
    ensures !SeenBefore(p + [x], x, b)
  {
    var k :| 0 <= k < |p| && p[k] == b;
    assert (p + [x])[k] == b;
    assert (p + [x])[..k] == p[..k];
  }

  /** A new non-empty value appended to the input is the last element of the output. */
  lemma NewValueLast(r: seq<string>, p: seq<string>, x: string)
    requires DistinctOf(r, p + [x])
    requires x != "" && x !in p
    ensures r != [] && r[|r| - 1] == x
  {
    var xs := p + [x];
    assert x in xs;
    assert x in r;
    forall j | 0 <= j < |r| && r[j] != x ensures !SeenBefore(xs, x, r[j]) {
      assert r[j] in r;
      assert r[j] in xs;
      assert r[j] in p;
      NotSeenBeforeNew(p, x, r[j]);
    }
    var n := |r| - 1;
    var ix :| 0 <= ix < |r| && r[ix] == x;
    if ix < n {
      assert false;
    }
  }

  /** Dropping a new value from the input drops it from the end of the output. */
  lemma DistinctOfDropNew(r: seq<string>, p: seq<string>, x: string)
    requires DistinctOf(r, p + [x])
    requires x != "" && x !in p
    ensures r != [] && r[|r| - 1] == x
    ensures DistinctOf(r[..|r| - 1], p)
  {
    var xs := p + [x];
    NewValueLast(r, p, x);
    var n := |r| - 1;
    var r0 := r[..n];
    forall y ensures y in r0 <==> y in p && y != "" {
      if y in r0 {
        var i :| 0 <= i < n && r0[i] == y;
        assert r[i] == y && r[i] != r[n];
        assert y in xs && y != x;
        var k :| 0 <= k < |xs| && xs[k] == y;
        assert k < |p| && p[k] == y;
      }
      if y in p && y != "" {
        assert y in xs;
        var i :| 0 <= i < |r| && r[i] == y;
        assert i != n;
      }
    }
    forall i, j | 0 <= i < j < |r0| ensures SeenBefore(p, r0[i], r0[j]) {
      assert SeenBefore(xs, r[i], r[j]);
      SeenBeforeInPrefix(p, x, r[i], r[j]);
    }
  }

  lemma HeadIsMember(r: seq<string>)
    ensures r != [] ==> r[0] in r
  {
  }

  /** The three properties of DistinctOf determine the list: any list having them is Distinct(xs). */
  lemma {:induction false} DistinctOfUnique(r: seq<string>, xs: seq<string>)
    requires DistinctOf(r, xs)
    ensures r == Distinct(xs)
    decreases |xs|
  {
    if xs == [] {
      HeadIsMember(r);
    } else {
      var p, x := xs[..|xs| - 1], xs[|xs| - 1];
      assert xs == p + [x];
      DistinctIsDistinctOf(p);
      if x == "" || x in p {
        DistinctOfDropRepeat(r, p, x);
        DistinctOfUnique(r, p);
      } else {
        DistinctOfDropNew(r, p, x);
        DistinctOfUnique(r[..|r| - 1], p);
        assert r == r[..|r| - 1] + [x];
      }
    }
  }

  // ---------------------------------------------------------------------
  // Number(String(anno).replace(/[^\d]/g, ''))
  // ---------------------------------------------------------------------

  predicate IsDigit(c: char) {
    '0' <= c <= '9'
  }

  predicate AllDigits(s: string) {
    forall i :: 0 <= i < |s| ==> IsDigit(s[i])
  }

  /** The digits of `s` in order: every other character removed. */
  function Digits(s: string): (d: string)
    ensures AllDigits(d) && |d| <= |s|
  {
    if s == [] then []
    else (if IsDigit(s[0]) then [s[0]] else []) + Digits(s[1..])
  }

  /** Removing non-digits distributes over concatenation. */
  lemma {:induction false} DigitsAppend(a: string, b: string)
    ensures Digits(a + b) == Digits(a) + Digits(b)
    decreases |a|
  {
    if a == [] {
      assert a + b == b;
    } else {
      assert (a + b)[0] == a[0];
      assert (a + b)[1..] == a[1..] + b;
      DigitsAppend(a[1..], b);
      var c := if IsDigit(a[0]) then [a[0]] else [];
      calc {
        Digits(a + b);
        c + Digits(a[1..] + b);
        c + (Digits(a[1..]) + Digits(b));
        (c + Digits(a[1..])) + Digits(b);
        Digits(a) + Digits(b);
      }
    }
  }

  /** A digit string is left as it is, so stripping twice is stripping once. */
  lemma {:induction false} DigitsOfDigits(d: string)
    requires AllDigits(d)
    ensures Digits(d) == d
    decreases |d|
  {
    if d != [] {
      DigitsOfDigits(d[1..]);
    }
  }

  /** Number() of a string of decimal digits; Number("") is 0. */
  function DecimalValue(d: string): (v: nat)
    requires AllDigits(d)
    ensures v == 0 <==> forall i :: 0 <= i < |d| ==> d[i] == '0'
    decreases |d|
  {
    if d == [] then 0
    else 10 * DecimalValue(d[..|d| - 1]) + (d[|d| - 1] as int - '0' as int)
  }

  /** One element of aniosNum. */
  function YearNumber(anno: string): (v: nat)
    ensures AllDigits(anno) ==> v == DecimalValue(anno)
  {
    var d := Digits(anno);
    assert AllDigits(anno) ==> d == anno by {
      if AllDigits(anno) { DigitsOfDigits(anno); }
    }
    DecimalValue(d)
  }

  /** Shortest decimal numeral of n. */
  function DecimalString(n: nat): (d: string)
    ensures AllDigits(d) && d != []
  {
    (if n < 10 then [] else DecimalString(n / 10)) + [('0' as int + n % 10) as char]
  }

  /** Reading back the numeral of a number gives the number. */
  lemma {:induction false} DecimalRoundTrip(n: nat)
    ensures DecimalValue(DecimalString(n)) == n
  {
    var d := DecimalString(n);
    assert d[..|d| - 1] == if n < 10 then [] else DecimalString(n / 10);
    if n >= 10 {
      DecimalRoundTrip(n / 10);
    }
  }

  /** A year written as a numeral, surrounded by characters that are not digits, reads back as that year. */
  lemma YearNumberOfNumeral(pre: string, n: nat, post: string)
    requires Digits(pre) == [] && Digits(post) == []
    ensures YearNumber(pre + DecimalString(n) + post) == n
  {
    var d := DecimalString(n);
    DigitsAppend(pre + d, post);
    DigitsAppend(pre, d);
    DigitsOfDigits(d);
    DecimalRoundTrip(n);
    assert Digits(pre + d + post) == [] + d + [];
    assert [] + d + [] == d;
  }

  /** An anno without digits gives 0, which is finite and is kept. */
  lemma YearNumberNoDigits(anno: string)
    requires forall i :: 0 <= i < |anno| ==> !IsDigit(anno[i])
    ensures YearNumber(anno) == 0
  {
    NoDigitsStripToEmpty(anno);
  }

  lemma {:induction false} NoDigitsStripToEmpty(s: string)
    requires forall i :: 0 <= i < |s| ==> !IsDigit(s[i])
    ensures Digits(s) == []
    decreases |s|
  {
    if s != [] {
      NoDigitsStripToEmpty(s[1..]);
    }
  }

  /** All digits are kept and concatenated: "2010-05" reads as 201005, not 2010. */
  lemma YearNumberJoinsDigitGroups()
    ensures YearNumber("2010-05") == 201005
    ensures YearNumber("2012") == 2012
  {
    YearOf2010Dash05();
    YearOf2012();
  }

  lemma YearOf2010Dash05()
    ensures YearNumber("2010-05") == 201005
  {
    DigitsOf2010Dash05();
    NumeralOf201005();
    DecimalRoundTrip(201005);
  }

  lemma YearOf2012()
    ensures YearNumber("2012") == 2012
  {
    NumeralOf2012();
    DecimalRoundTrip(2012);
  }

  lemma DigitsOf2010Dash05()
    ensures Digits("2010-05") == "201005"
  {
    assert "2010-05" == "2010" + "-" + "05";
    DigitsAppend("2010" + "-", "05");
    DigitsAppend("2010", "-");
    NoDigitsStripToEmpty("-");
    DigitsOfDigits("2010");
    DigitsOfDigits("05");
    assert "2010" + "05" == "201005";
  }

  lemma NumeralOf201005()
    ensures DecimalString(201005) == "201005"
  {
    assert DecimalString(2) == "2";
    assert DecimalString(20) == "20";
    assert DecimalString(201) == "201";
    assert DecimalString(2010) == "2010";
    assert DecimalString(20100) == "20100";
  }

  lemma NumeralOf2012()
    ensures DecimalString(2012) == "2012"
  {
    assert DecimalString(2) == "2";
    assert DecimalString(20) == "20";
    assert DecimalString(201) == "201";
  }

  // ---------------------------------------------------------------------
  // aniosNum.length ? Math.max(...aniosNum) : null
  // ---------------------------------------------------------------------

  /** The largest element, or None for an empty list. */
  function MaxOf(ys: seq<nat>): (m: Option<nat>)
    ensures m.None? <==> ys == []
    ensures m.Some? ==> m.value in ys && forall y :: y in ys ==> y <= m.value
  {
    if ys == [] then None
    else
      assert forall y :: y in ys ==> y == ys[0] || y in ys[1..];
      match MaxOf(ys[1..])
      case None => Some(ys[0])
      case Some(rest) => Some(if ys[0] < rest then rest else ys[0])
  }

  // ---------------------------------------------------------------------
  // The resumen object
  // ---------------------------------------------------------------------

  datatype Resumen = Resumen(
    total: nat,
    primerRegistro: Option<Candidate>,
    cedulas: seq<string>,
    universidades: seq<string>,
    entidades: seq<string>,
    aniosNum: seq<nat>,
    ultimoAnno: Option<nat>)

  function Universidades(rs: seq<Candidate>): (xs: seq<string>)
    ensures |xs| == |rs| && forall i :: 0 <= i < |rs| ==> xs[i] == rs[i].universidad
  {
    seq(|rs|, i requires 0 <= i < |rs| => rs[i].universidad)
  }

  function Entidades(rs: seq<Candidate>): (xs: seq<string>)
    ensures |xs| == |rs| && forall i :: 0 <= i < |rs| ==> xs[i] == rs[i].entidad
  {
    seq(|rs|, i requires 0 <= i < |rs| => rs[i].entidad)
  }

  /** The summary of a result list. */
  function Summarize(rs: seq<Candidate>): (s: Resumen)
    ensures s.total == |rs|
    ensures s.primerRegistro.None? <==> rs == []
    ensures s.primerRegistro.Some? ==> s.primerRegistro.value == rs[0]
    ensures |s.cedulas| == |rs| && forall i :: 0 <= i < |rs| ==> s.cedulas[i] == rs[i].cedula
    ensures DistinctOf(s.universidades, Universidades(rs))
    ensures DistinctOf(s.entidades, Entidades(rs))
    ensures |s.aniosNum| == |rs| && forall i :: 0 <= i < |rs| ==> s.aniosNum[i] == YearNumber(rs[i].anno)
    ensures s.ultimoAnno.None? <==> rs == []
    ensures s.ultimoAnno.Some? ==> (s.ultimoAnno.value in s.aniosNum &&
      forall i :: 0 <= i < |rs| ==> YearNumber(rs[i].anno) <= s.ultimoAnno.value)
  {
    var aniosNum := seq(|rs|, i requires 0 <= i < |rs| => YearNumber(rs[i].anno));
    DistinctIsDistinctOf(Universidades(rs));
    DistinctIsDistinctOf(Entidades(rs));
    assert forall i :: 0 <= i < |rs| ==> aniosNum[i] in aniosNum;
    Resumen(
      total := |rs|,
      primerRegistro := if rs == [] then None else Some(rs[0]),
      cedulas := seq(|rs|, i requires 0 <= i < |rs| => rs[i].cedula),
      universidades := Distinct(Universidades(rs)),
      entidades := Distinct(Entidades(rs)),
      aniosNum := aniosNum,
      ultimoAnno := MaxOf(aniosNum))
  }

  lemma DistinctOfTwo(a: string, b: string)
    requires a != "" && b != "" && a != b
    ensures Distinct([a, b]) == [a, b]
  {
    assert [a][..0] == [];
    assert Distinct([a]) == [a];
    assert [a, b][..1] == [a];
    assert b !in [a];
  }

  /** Two records with distinct non-empty universities and states keep both, in record order. */
  lemma SummaryOfTwo(r1: Candidate, r2: Candidate)
    requires r1.universidad != "" && r2.universidad != "" && r1.universidad != r2.universidad
    requires r1.entidad != "" && r2.entidad != "" && r1.entidad != r2.entidad
    ensures Summarize([r1, r2]).universidades == [r1.universidad, r2.universidad]
    ensures Summarize([r1, r2]).entidades == [r1.entidad, r2.entidad]
  {
    var rs := [r1, r2];
    assert Universidades(rs) == [r1.universidad, r2.universidad];
    DistinctOfTwo(r1.universidad, r2.universidad);
    assert Entidades(rs) == [r1.entidad, r2.entidad];
    DistinctOfTwo(r1.entidad, r2.entidad);
  }

  /** Cedulas and years of two records, in record order. */
  lemma CedulasAndYearsOfTwo(r1: Candidate, r2: Candidate)
    ensures Summarize([r1, r2]).cedulas == [r1.cedula, r2.cedula]
    ensures Summarize([r1, r2]).aniosNum == [YearNumber(r1.anno), YearNumber(r2.anno)]
  {
  }

  /**
   * Two result rows: 001 Ana Lopez Ruiz, UNAM, CDMX, anno "2010-05", and
   * 002 Beto Diaz Cruz, IPN, JAL, anno "2012", mapped to records.
   */
  lemma ExampleRows(r1: Candidate, r2: Candidate)
    requires r1 == ToCandidate(["001", "Ana", "Lopez", "Ruiz", "F", "UNAM", "Medicina", "CDMX", "2010-05"])
    requires r2 == ToCandidate(["002", "Beto", "Diaz", "Cruz", "M", "IPN", "Derecho", "JAL", "2012"])
    ensures r1.cedula == "001" && r1.universidad == "UNAM" && r1.entidad == "CDMX" && r1.anno == "2010-05"
    ensures r2.cedula == "002" && r2.universidad == "IPN" && r2.entidad == "JAL" && r2.anno == "2012"
  {
  }

  /**
   * The summary of those two rows: the anno "2010-05" reads as 201005, so it,
   * and not 2012, is the latest year.
   */
  lemma ExampleSummary(r1: Candidate, r2: Candidate)
    requires r1 == ToCandidate(["001", "Ana", "Lopez", "Ruiz", "F", "UNAM", "Medicina", "CDMX", "2010-05"])
    requires r2 == ToCandidate(["002", "Beto", "Diaz", "Cruz", "M", "IPN", "Derecho", "JAL", "2012"])
    ensures Summarize([r1, r2]).total == 2
    ensures Summarize([r1, r2]).cedulas == ["001", "002"]
    ensures Summarize([r1, r2]).universidades == ["UNAM", "IPN"]
    ensures Summarize([r1, r2]).entidades == ["CDMX", "JAL"]
    ensures Summarize([r1, r2]).aniosNum == [201005, 2012]
    ensures Summarize([r1, r2]).ultimoAnno == Some(201005)
  {
    ExampleRows(r1, r2);
    YearNumberJoinsDigitGroups();
    SummaryOfTwo(r1, r2);
    CedulasAndYearsOfTwo(r1, r2);
    var s := Summarize([r1, r2]);
    assert s.ultimoAnno.value in [201005, 2012];
  }
}
