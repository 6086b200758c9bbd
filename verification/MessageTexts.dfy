/** The ':'-separated texts of the protocol messages, and when reading a printed message gives it back. */
module MessageTexts {
  import opened Outcomes
  import opened Congruence

  const COLON: char := ':'

  // ---------- explode ----------

  /** The finished pieces of `s` and the piece being read. */
  function Scan(s: string): (r: (seq<string>, string)) {
    if s == [] then ([], "")
    else
      var (v, buff) := Scan(s[..|s| - 1]);
      var n := s[|s| - 1];
      if n != COLON then (v, buff + [n]) else if buff != "" then (v + [buff], "") else (v, buff)
  }

  function Fields(s: string): seq<string> {
    var (v, buff) := Scan(s);
    if buff != "" then v + [buff] else v
  }

  /** `explode(s, ':')`: empty pieces are dropped. */
  method Explode(s: string) returns (v: seq<string>)
    ensures v == Fields(s)
  {
    var buff := "";
    v := [];
    for i := 0 to |s|
      invariant Scan(s[..i]) == (v, buff)
    {
      assert s[..i + 1][..i] == s[..i];
      var n := s[i];
      if n != COLON {
        buff := buff + [n];
      } else if buff != "" {
        v := v + [buff];
        buff := "";
      }
    }
    assert s[..|s|] == s;
    if buff != "" {
      v := v + [buff];
    }
  }

  predicate NoColon(s: string) {
    COLON !in s
  }

  /** A non-empty text without ':'. */
  predicate Proper(s: string) {
    s != "" && NoColon(s)
  }

  predicate AllProper(f: seq<string>) {
    forall i :: 0 <= i < |f| ==> Proper(f[i])
  }

  function Join(f: seq<string>): string {
    if f == [] then "" else if |f| == 1 then f[0] else Join(f[..|f| - 1]) + [COLON] + f[|f| - 1]
  }

  lemma {:induction false} ScanProper(s: string)
    ensures AllProper(Scan(s).0) && NoColon(Scan(s).1)
    decreases |s|
  {
    if s == [] {
    } else {
      ScanProper(s[..|s| - 1]);
    }
  }

  lemma {:induction false} ScanText(s: string, t: string)
    requires NoColon(t)
    ensures Scan(s + t) == (Scan(s).0, Scan(s).1 + t)
    decreases |t|
  {
    if t == [] {
      assert s + t == s;
      assert Scan(s).1 + t == Scan(s).1;
    } else {
      var t', n := t[..|t| - 1], t[|t| - 1];
      assert n in t;
      assert NoColon(t');
      ScanText(s, t');
      assert (s + t)[..|s + t| - 1] == s + t';
      assert (Scan(s).1 + t') + [n] == Scan(s).1 + t by { assert t' + [n] == t; }
    }
  }

  lemma ScanColon(s: string)
    ensures Scan(s + [COLON]) == if Scan(s).1 != "" then (Scan(s).0 + [Scan(s).1], "") else Scan(s)
  {
    assert (s + [COLON])[..|s|] == s;
  }

  /** Exploding a joined list of proper fields gives the list back. */
  lemma {:induction false} ScanJoin(f: seq<string>)
    requires f != [] && AllProper(f)
    ensures Scan(Join(f)) == (f[..|f| - 1], f[|f| - 1])
    decreases |f|
  {
    var last := f[|f| - 1];
    if |f| == 1 {
      ScanText("", last);
      assert "" + last == last;
      assert f[..0] == [];
    } else {
      var before := f[..|f| - 1];
      ScanJoin(before);
      ScanColon(Join(before));
      ScanText(Join(before) + [COLON], last);
      assert before[..|before| - 1] + [before[|before| - 1]] == before;
      assert "" + last == last;
    }
  }

  lemma FieldsProper(s: string)
    ensures AllProper(Fields(s))
  {
    ScanProper(s);
  }

  /** A list of fields survives printing and exploding exactly when every field is proper. */
  lemma ExplodeJoin(f: seq<string>)
    ensures Fields(Join(f)) == f <==> AllProper(f)
  {
    FieldsProper(Join(f));
    if AllProper(f) && f != [] {
      ScanJoin(f);
      assert f[..|f| - 1] + [f[|f| - 1]] == f;
    }
  }

  lemma {:induction false} JoinAppend(f: seq<string>, g: seq<string>)
    requires f != [] && g != []
    ensures Join(f + g) == Join(f) + [COLON] + Join(g)
    decreases |g|
  {
    var last := g[|g| - 1];
    assert (f + g)[|f + g| - 1] == last;
    assert (f + g)[..|f + g| - 1] == f + g[..|g| - 1];
    if |g| == 1 {
      assert f + g[..0] == f;
    } else {
      JoinAppend(f, g[..|g| - 1]);
    }
  }

  // ---------- decimal numbers ----------

  function DigitChar(n: int): char
    requires 0 <= n < 10
  {
    ('0' as int + n) as char
  }

  function Digits(n: nat): string {
    if n < 10 then [DigitChar(n)] else Digits(n / 10) + [DigitChar(n % 10)]
  }

  /** `to_string` of a long, and the decimal text of a big integer. */
  function Decimal(n: int): string {
    if n < 0 then "-" + Digits(-n) else Digits(n)
  }

  predicate IsDigit(c: char) {
    '0' <= c <= '9'
  }

  function DigitsValue(s: string): Outcome<int> {
    if s == "" then Returned(0)
    else if !IsDigit(s[|s| - 1]) then Threw(InvalidArgument)
    else
      var high :- DigitsValue(s[..|s| - 1]);
      Returned(10 * high + (s[|s| - 1] as int - '0' as int))
  }

  /** `stol`, and the reading of a big integer, on decimal texts. */
  function ParseDecimal(s: string): Outcome<int> {
    if s == "" || s == "-" then Threw(InvalidArgument)
    else if s[0] == '-' then
      var n :- DigitsValue(s[1..]);
      Returned(-n)
    else
      var n :- DigitsValue(s);
      Returned(n)
  }

  /** The number that a row of digits stands for, first digit highest. */
  function Positional(s: string): int {
    if s == "" then 0 else (s[0] as int - '0' as int) * Pow(10, |s| - 1) + Positional(s[1..])
  }

  lemma {:induction false} PositionalAppend(s: string, c: char)
    ensures Positional(s + [c]) == 10 * Positional(s) + (c as int - '0' as int)
    decreases |s|
  {
    hide Pow;
    if s == "" {
      assert (s + [c])[1..] == "";
      PowUnfolds(10, 0);
    } else {
      PositionalAppend(s[1..], c);
      assert (s + [c])[1..] == s[1..] + [c];
      PowUnfolds(10, |s| - 1);
      TenTimes(s[0] as int - '0' as int, Pow(10, |s| - 1));
    }
  }

  lemma TenTimes(d: int, p: int)
    ensures d * (10 * p) == 10 * (d * p)
  {
  }

  /** A text of digits is read as the decimal number it is, and no other text is. */
  lemma {:induction false} DigitsPositional(s: string)
    ensures DigitsValue(s).Returned? <==> forall i :: 0 <= i < |s| ==> IsDigit(s[i])
    ensures DigitsValue(s).Returned? ==> DigitsValue(s).value == Positional(s)
    decreases |s|
  {
    hide Positional;
    if s == "" {
      PositionalEmpty();
    } else {
      var n := |s| - 1;
      DigitsPositional(s[..n]);
      assert s == s[..n] + [s[n]];
      PositionalAppend(s[..n], s[n]);
    }
  }

  predicate AllDigits(s: string) {
    s != "" && forall i :: 0 <= i < |s| ==> IsDigit(s[i])
  }

  /** A number is read exactly from digits with or without a minus in front, as the number they stand for. */
  lemma DecimalLaw(s: string)
    ensures ParseDecimal(s).Returned? <==> AllDigits(s) || (s != "" && s[0] == '-' && AllDigits(s[1..]))
    ensures AllDigits(s) ==> ParseDecimal(s).value == Positional(s)
    ensures s != "" && s[0] == '-' && AllDigits(s[1..]) ==> ParseDecimal(s).value == -Positional(s[1..])
    ensures ParseDecimal(s).Threw? ==> ParseDecimal(s).error == InvalidArgument
  {
    hide Positional, DigitsValue;
    DigitsPositional(s);
    OnlyInvalidArgument(s);
    if s != "" {
      DigitsPositional(s[1..]);
      if s[0] == '-' { assert s == ['-'] + s[1..]; }
    }
  }

  lemma PositionalEmpty()
    ensures Positional("") == 0
  {
  }

  lemma {:induction false} DigitsRoundTrip(n: nat)
    ensures DigitsValue(Digits(n)) == Returned(n) && Digits(n) != ""
    ensures forall i :: 0 <= i < |Digits(n)| ==> IsDigit(Digits(n)[i])
    decreases n
  {
    if n >= 10 {
      DigitsRoundTrip(n / 10);
      var s := Digits(n);
      assert s[..|s| - 1] == Digits(n / 10);
    } else {
      assert Digits(n)[..0] == "";
    }
  }

  /** Every number, negative ones included, is read back from its text, which is a proper field. */
  lemma DecimalRoundTrip(n: int)
    ensures ParseDecimal(Decimal(n)) == Returned(n) && Proper(Decimal(n))
  {
    if n < 0 {
      DigitsRoundTrip(-n);
      ReadNegative(Digits(-n), -n);
    } else {
      DigitsRoundTrip(n);
      ReadDigits(Digits(n), n);
    }
  }

  lemma ReadNegative(s: string, n: int)
    requires s != "" && DigitsValue(s) == Returned(n) && forall i :: 0 <= i < |s| ==> IsDigit(s[i])
    ensures ParseDecimal("-" + s) == Returned(-n) && Proper("-" + s)
  {
    hide DigitsValue;
    var t := "-" + s;
    assert t[1..] == s && t[0] == '-' && |t| > 1;
    forall i | 0 <= i < |t| ensures t[i] != COLON {
      assert i > 0 ==> t[i] == s[i - 1];
    }
  }

  lemma ReadDigits(s: string, n: int)
    requires s != "" && DigitsValue(s) == Returned(n) && forall i :: 0 <= i < |s| ==> IsDigit(s[i])
    ensures ParseDecimal(s) == Returned(n) && Proper(s)
  {
    hide DigitsValue;
    assert IsDigit(s[0]);
  }

  // ---------- Pedersen messages ----------

  function PrintCommitment(id: int, c: string): string {
    Decimal(id) + [COLON] + c
  }

  /** Fields beyond the third are ignored; a missing second field is read outside the vector. */
  function ParseCommitment(raw: string): Outcome<(int, string)> {
    var v := Fields(raw);
    if |v| < 2 then Threw(OutOfRange)
    else
      var id :- ParseDecimal(v[0]);
      Returned((id, if |v| == 3 then v[1] + [COLON] + v[2] else v[1]))
  }

  /** An element text of one coordinate, or of two. */
  ghost predicate ElementText(c: string) {
    Proper(c) || exists a, b :: Proper(a) && Proper(b) && c == a + [COLON] + b
  }

  lemma PrintedFields(id: int, f: seq<string>)
    requires AllProper(f) && f != []
    ensures Fields(PrintCommitment(id, Join(f))) == [Decimal(id)] + f
  {
    DecimalRoundTrip(id);
    JoinAppend([Decimal(id)], f);
    ExplodeJoin([Decimal(id)] + f);
  }

  lemma ReprintTwo(a: string, b: string)
    ensures Join([a, b]) == a + [COLON] + b && Join([a]) == a
  {
    assert [a, b][..1] == [a];
  }

  /** A printed Pedersen commitment is read back exactly when the element text has one or two
      proper fields. */
  lemma CommitmentRoundTrip(id: int, c: string)
    ensures ParseCommitment(PrintCommitment(id, c)) == Returned((id, c)) <==> ElementText(c)
  {
    DecimalRoundTrip(id);
    hide Decimal, ParseDecimal;
    if Proper(c) {
      PrintedFields(id, [c]);
      ReprintTwo(c, c);
      hide Fields;
    } else if a, b :| Proper(a) && Proper(b) && c == a + [COLON] + b {
      ReprintTwo(a, b);
      PrintedFields(id, [a, b]);
      hide Fields;
    } else {
      FieldsProper(PrintCommitment(id, c));
      hide Fields;
    }
  }

  function PrintOpening(x: int, r: int): string {
    Decimal(x) + [COLON] + Decimal(r)
  }

  function ParseOpening(s: string): Outcome<(int, int)> {
    var v := Fields(s);
    if |v| < 2 then Threw(OutOfRange)
    else
      var x :- ParseDecimal(v[0]);
      var r :- ParseDecimal(v[1]);
      Returned((x, r))
  }

  lemma OpeningRoundTrip(x: int, r: int)
    ensures ParseOpening(PrintOpening(x, r)) == Returned((x, r))
  {
    DecimalRoundTrip(x);
    DecimalRoundTrip(r);
    ReprintTwo(Decimal(x), Decimal(r));
    ExplodeJoin([Decimal(x), Decimal(r)]);
  }

  // ---------- ElGamal messages ----------

  /** Fields from `i` on, each followed by ':'. */
  function Terminated(v: seq<string>): string {
    if v == [] then "" else Terminated(v[..|v| - 1]) + v[|v| - 1] + [COLON]
  }

  /** The reassembly loop of `initFromString`. */
  method ParseElGamalCommitment(s: string) returns (o: Outcome<(int, string)>)
    ensures Fields(s) == [] ==> o == Threw(OutOfRange)
    ensures Fields(s) != [] && ParseDecimal(Fields(s)[0]).Threw? ==> o == Threw(InvalidArgument)
    ensures Fields(s) != [] && ParseDecimal(Fields(s)[0]).Returned? ==>
      o == Returned((ParseDecimal(Fields(s)[0]).value, Terminated(Fields(s)[1..])))
  {
    var vec := Explode(s);
    if vec == [] {
      return Threw(OutOfRange);
    }
    OnlyInvalidArgument(vec[0]);
    var id :- ParseDecimal(vec[0]);
    var inner := "";
    for i := 0 to |vec| - 1
      invariant inner == Terminated(vec[1..][..i])
    {
      assert vec[1..][..i + 1][..i] == vec[1..][..i];
      inner := inner + vec[1 + i];
      inner := inner + [COLON];
    }
    assert vec[1..][..|vec| - 1] == vec[1..];
    return Returned((id, inner));
  }

  lemma {:induction false} OnlyInvalidDigits(s: string)
    ensures DigitsValue(s).Threw? ==> DigitsValue(s).error == InvalidArgument
    decreases |s|
  {
    if s == "" {
    } else {
      OnlyInvalidDigits(s[..|s| - 1]);
    }
  }

  lemma OnlyInvalidArgument(s: string)
    ensures ParseDecimal(s).Threw? ==> ParseDecimal(s).error == InvalidArgument
  {
    OnlyInvalidDigits(s);
    if s != "" { OnlyInvalidDigits(s[1..]); }
  }

  lemma {:induction false} TerminatedJoin(f: seq<string>)
    requires f != []
    ensures Terminated(f) == Join(f) + [COLON]
    decreases |f|
  {
    if |f| == 1 {
      assert f[..0] == [];
    } else {
      TerminatedJoin(f[..|f| - 1]);
    }
  }

  /** A printed ElGamal commitment of any number of proper fields comes back with its id and exactly
      one ':' added at the end of the ciphertext text. */
  lemma ElGamalCommitmentRoundTrip(id: int, f: seq<string>)
    requires AllProper(f) && f != []
    ensures var v := Fields(PrintCommitment(id, Join(f)));
            && v != [] && ParseDecimal(v[0]) == Returned(id)
            && Terminated(v[1..]) == Join(f) + [COLON] && Fields(Terminated(v[1..])) == f
  {
    DecimalRoundTrip(id);
    PrintedFields(id, f);
    var v := Fields(PrintCommitment(id, Join(f)));
    assert v[1..] == f;
    TerminatedJoin(f);
    ExplodeJoin(f);
    ScanColon(Join(f));
    ScanJoin(f);
  }

  function PrintElGamalOpening(x: string, r: int): string {
    x + [COLON] + Decimal(r)
  }

  /** `Untouched` stands for the members being left as they were. */
  datatype Reading = Untouched | Read(x: string, r: int)

  function ParseElGamalOpening(s: string): Outcome<Reading> {
    var v := Fields(s);
    if |v| == 2 then
      var r :- ParseDecimal(v[1]);
      Returned(Read(v[0], r))
    else if |v| == 3 then
      var r :- ParseDecimal(v[2]);
      Returned(Read(v[0] + [COLON] + v[1], r))
    else Returned(Untouched)
  }

  lemma ElGamalOpeningRoundTrip(x: string, r: int)
    ensures ParseElGamalOpening(PrintElGamalOpening(x, r)) == Returned(Read(x, r)) <==> ElementText(x)
  {
    if Proper(x) {
      OpeningOfOneField(x, r);
    } else if a, b :| Proper(a) && Proper(b) && x == a + [COLON] + b {
      OpeningOfTwoFields(a, b, r);
    } else {
      FieldsProper(PrintElGamalOpening(x, r));
    }
  }

  /** An ElGamal opening is read from two or three fields; with any other number nothing is read and nothing thrown. */
  lemma ElGamalOpeningLaw(s: string)
    ensures |Fields(s)| != 2 && |Fields(s)| != 3 ==> ParseElGamalOpening(s) == Returned(Untouched)
    ensures |Fields(s)| == 2 || |Fields(s)| == 3 ==>
      var v := Fields(s);
      && (ParseElGamalOpening(s).Returned? <==> ParseDecimal(v[|v| - 1]).Returned?)
      && (ParseElGamalOpening(s).Returned? ==>
            && ParseElGamalOpening(s).value.Read? && ParseElGamalOpening(s).value.r == ParseDecimal(v[|v| - 1]).value
            && Fields(ParseElGamalOpening(s).value.x) == v[..|v| - 1])
  {
    hide Fields, ParseDecimal, Proper;
    FieldsProper(s);
    var v := Fields(s);
    if |v| == 2 {
      OneFieldOf(v[0]);
      assert v[..1] == [v[0]];
    } else if |v| == 3 {
      TwoFields(v[0], v[1]);
      assert v[..2] == [v[0], v[1]];
    }
  }

  lemma OpeningOfOneField(x: string, r: int)
    requires Proper(x)
    ensures ParseElGamalOpening(PrintElGamalOpening(x, r)) == Returned(Read(x, r))
  {
    DecimalRoundTrip(r);
    ReprintTwo(x, Decimal(r));
    ExplodeJoin([x, Decimal(r)]);
  }

  lemma OpeningOfTwoFields(a: string, b: string, r: int)
    requires Proper(a) && Proper(b)
    ensures ParseElGamalOpening(PrintElGamalOpening(a + [COLON] + b, r)) == Returned(Read(a + [COLON] + b, r))
  {
    DecimalRoundTrip(r);
    ReprintTwo(a, b);
    var f := [a, b, Decimal(r)];
    assert f[..2] == [a, b];
    ExplodeJoin(f);
    assert Join(f) == PrintElGamalOpening(a + [COLON] + b, r);
  }

  // ---------- the sender's messages ----------

  lemma {:induction false} ScanAfterColon(a: string, b: string)
    ensures Scan(a + [COLON] + b) == (Fields(a) + Scan(b).0, Scan(b).1)
    decreases |b|
  {
    if b == "" {
      assert a + [COLON] + b == a + [COLON];
      ScanColon(a);
      assert Scan(a + [COLON]) == (Fields(a), "");
      assert Fields(a) + [] == Fields(a);
    } else {
      var b' := b[..|b| - 1];
      ScanAfterColon(a, b');
      var s := a + [COLON] + b;
      assert s[..|s| - 1] == a + [COLON] + b' && s[|s| - 1] == b[|b| - 1];
      assert Fields(a) + (Scan(b').0 + [Scan(b').1]) == Fields(a) + Scan(b').0 + [Scan(b').1];
    }
  }

  /** Exploding two texts joined by ':' explodes each. */
  lemma FieldsAppend(a: string, b: string)
    ensures Fields(a + [COLON] + b) == Fields(a) + Fields(b)
  {
    ScanAfterColon(a, b);
  }

  lemma FieldOfProper(c: string)
    requires NoColon(c)
    ensures Fields(c) == if c == "" then [] else [c]
  {
    if c != "" {
      ExplodeJoin([c]);
    }
  }

  function TotalLength(f: seq<string>): nat {
    if f == [] then 0 else TotalLength(f[..|f| - 1]) + |f[|f| - 1]|
  }

  lemma TotalAppend(f: seq<string>, c: string)
    ensures TotalLength(f + [c]) == TotalLength(f) + |c|
  {
    assert (f + [c])[..|f|] == f;
  }

  /** Every ':' is lost by exploding. */
  lemma {:induction false} ScanLength(s: string)
    ensures TotalLength(Scan(s).0) + |Scan(s).1| + (if NoColon(s) then 0 else 1) <= |s|
    decreases |s|
  {
    if s == "" {
    } else {
      var s', n := s[..|s| - 1], s[|s| - 1];
      ScanLength(s');
      assert NoColon(s) <==> NoColon(s') && n != COLON by { assert s == s' + [n]; }
      TotalAppend(Scan(s').0, Scan(s').1);
    }
  }

  lemma FieldsLength(s: string)
    ensures TotalLength(Fields(s)) + (if NoColon(s) then 0 else 1) <= |s|
  {
    ScanLength(s);
    TotalAppend(Scan(s).0, Scan(s).1);
  }

  lemma TwoFieldsAreShorter(c: string, a: string, b: string)
    requires Fields(c) == [a, b]
    ensures |a| + |b| < |c|
  {
    FieldsLength(c);
    TotalAppend([], a);
    TotalAppend([a], b);
    assert [] + [a] == [a] && [a] + [b] == [a, b];
    if NoColon(c) {
      FieldOfProper(c);
    }
  }

  lemma OneFieldOfLength(c: string, a: string)
    requires Fields(c) == [a] && |a| == |c|
    ensures c == a && Proper(a)
  {
    FieldsLength(c);
    TotalAppend([], a);
    assert [] + [a] == [a];
    FieldOfProper(c);
  }

  /** Two texts of one length whose fields are together two fields of that length are those fields. */
  lemma TwoFieldsOfLength(c0: string, c1: string, a: string, b: string)
    requires |c0| == |c1| == |a| == |b| && Fields(c0) + Fields(c1) == [a, b]
    ensures c0 == a && c1 == b && Proper(a) && Proper(b)
  {
    var f0, f1 := Fields(c0), Fields(c1);
    if f0 == [] {
      assert f0 + f1 == f1;
      TwoFieldsAreShorter(c1, a, b);
    } else if f1 == [] {
      assert f0 + f1 == f0;
      TwoFieldsAreShorter(c0, a, b);
    } else {
      assert f0[0] == (f0 + f1)[0] && f1[|f1| - 1] == (f0 + f1)[1];
      assert f0 == [a] && f1 == [b];
      OneFieldOfLength(c0, a);
      OneFieldOfLength(c1, b);
    }
  }

  /** `toString` of the sender's message, with elements or with byte arrays. */
  function PrintSenderMsg(w0: string, w1: string, c0: string, c1: string): string {
    w0 + [COLON] + w1 + [COLON] + c0 + [COLON] + c1
  }

  datatype SenderTexts = SenderTexts(w0: string, w1: string, c0: string, c1: string)

  /** Byte arrays: four fields are read as a Zp message, six as a curve message; any other number fails an
      assertion. */
  function ParseByteMsg(row: string): Outcome<SenderTexts> {
    var v := Fields(row);
    if |v| == 4 then Returned(SenderTexts(v[0], v[1], v[2], v[3]))
    else if |v| == 6 then Returned(SenderTexts(v[0] + [COLON] + v[1], v[2] + [COLON] + v[3], v[4], v[5]))
    else Threw(IllegalState)
  }

  /** Elements: four fields or eight. */
  function ParseElementMsg(row: string): Outcome<SenderTexts> {
    var v := Fields(row);
    if |v| == 4 then Returned(SenderTexts(v[0], v[1], v[2], v[3]))
    else if |v| == 8 then Returned(SenderTexts(v[0] + [COLON] + v[1], v[2] + [COLON] + v[3],
                                               v[4] + [COLON] + v[5], v[6] + [COLON] + v[7]))
    else Threw(IllegalState)
  }

  lemma SenderFields(w0: string, w1: string, c0: string, c1: string)
    ensures Fields(PrintSenderMsg(w0, w1, c0, c1)) == Fields(w0) + Fields(w1) + Fields(c0) + Fields(c1)
  {
    FieldsAppend(w0, w1);
    FieldsAppend(w0 + [COLON] + w1, c0);
    FieldsAppend(w0 + [COLON] + w1 + [COLON] + c0, c1);
  }

  /** Whatever text arrives: it is read exactly with four or six fields, and what is read prints to the same fields. */
  lemma ByteMsgLaw(row: string)
    ensures ParseByteMsg(row).Returned? <==> |Fields(row)| == 4 || |Fields(row)| == 6
    ensures ParseByteMsg(row).Threw? ==> ParseByteMsg(row).error == IllegalState
    ensures ParseByteMsg(row).Returned? ==>
      var m := ParseByteMsg(row).value;
      && SameKind(m.w0, m.w1) && Proper(m.c0) && Proper(m.c1)
      && Fields(PrintSenderMsg(m.w0, m.w1, m.c0, m.c1)) == Fields(row)
  {
    hide Fields, PrintSenderMsg, Proper, ElementText;
    FieldsProper(row);
    var v := Fields(row);
    if |v| == 4 {
      OneFieldOf(v[0]);
      OneFieldOf(v[1]);
      KindOfOne(v[0], v[1]);
    } else if |v| == 6 {
      TwoFields(v[0], v[1]);
      TwoFields(v[2], v[3]);
      KindOfTwo(v[0], v[1], v[2], v[3]);
    }
    if |v| == 4 || |v| == 6 {
      var m := ParseByteMsg(row).value;
      SenderFields(m.w0, m.w1, m.c0, m.c1);
      OneFieldOf(m.c0);
      OneFieldOf(m.c1);
    }
  }

  /** The same for elements, with four or eight fields. */
  lemma ElementMsgLaw(row: string)
    ensures ParseElementMsg(row).Returned? <==> |Fields(row)| == 4 || |Fields(row)| == 8
    ensures ParseElementMsg(row).Threw? ==> ParseElementMsg(row).error == IllegalState
    ensures ParseElementMsg(row).Returned? ==>
      var m := ParseElementMsg(row).value;
      && SameKind(m.w0, m.w1) && SameKind(m.w1, m.c0) && SameKind(m.c0, m.c1)
      && Fields(PrintSenderMsg(m.w0, m.w1, m.c0, m.c1)) == Fields(row)
  {
    hide Fields, PrintSenderMsg, Proper, ElementText;
    FieldsProper(row);
    var v := Fields(row);
    if |v| == 4 {
      OneFieldOf(v[0]);
      OneFieldOf(v[1]);
      OneFieldOf(v[2]);
      OneFieldOf(v[3]);
      KindOfOne(v[0], v[1]);
      KindOfOne(v[1], v[2]);
      KindOfOne(v[2], v[3]);
    } else if |v| == 8 {
      TwoFields(v[0], v[1]);
      TwoFields(v[2], v[3]);
      TwoFields(v[4], v[5]);
      TwoFields(v[6], v[7]);
      KindOfTwo(v[0], v[1], v[2], v[3]);
      KindOfTwo(v[2], v[3], v[4], v[5]);
      KindOfTwo(v[4], v[5], v[6], v[7]);
    }
    if |v| == 4 || |v| == 8 {
      var m := ParseElementMsg(row).value;
      SenderFields(m.w0, m.w1, m.c0, m.c1);
    }
  }

  lemma KindOfOne(a: string, b: string)
    requires Proper(a) && Proper(b)
    ensures SameKind(a, b)
  {
  }

  lemma KindOfTwo(a: string, b: string, c: string, e: string)
    requires Proper(a) && Proper(b) && Proper(c) && Proper(e)
    ensures SameKind(a + [COLON] + b, c + [COLON] + e)
  {
    assert COLON in a + [COLON] + b && COLON in c + [COLON] + e;
  }

  /** A commitment message with at least two fields and a number in front is read: the id, and the next one or two
      fields, two exactly when there are three in all. */
  lemma CommitmentLaw(raw: string)
    ensures ParseCommitment(raw).Returned? <==> |Fields(raw)| >= 2 && ParseDecimal(Fields(raw)[0]).Returned?
    ensures ParseCommitment(raw).Returned? ==>
      var v, o := Fields(raw), ParseCommitment(raw).value;
      Fields(PrintCommitment(o.0, o.1)) == [Decimal(ParseDecimal(v[0]).value)] + (if |v| == 3 then v[1..] else [v[1]])
  {
    hide Fields, Proper, Decimal, ParseDecimal;
    FieldsProper(raw);
    var v := Fields(raw);
    if |v| >= 2 && ParseDecimal(v[0]).Returned? {
      var o := ParseCommitment(raw).value;
      DecimalRoundTrip(o.0);
      OneFieldOf(Decimal(o.0));
      OneFieldOf(v[1]);
      if |v| == 3 { TwoFields(v[1], v[2]); }
      FieldsAppend(Decimal(o.0), o.1);
    }
  }

  lemma TwoFields(a: string, b: string)
    requires Proper(a) && Proper(b)
    ensures Fields(a + [COLON] + b) == [a, b]
  {
    FieldsAppend(a, b);
    FieldOfProper(a);
    FieldOfProper(b);
    hide Fields;
    assert [a] + [b] == [a, b];
  }

  /** Element texts of one kind: all of one coordinate, or all of two. */
  ghost predicate SameKind(w0: string, w1: string) {
    ElementText(w0) && ElementText(w1) && (Proper(w0) <==> Proper(w1))
  }

  /** A printed message of byte arrays is read as the element texts with the rest split in two, or not at all. */
  lemma ByteMsgRead(w0: string, w1: string, c0: string, c1: string)
    requires SameKind(w0, w1)
    ensures var row, rest := PrintSenderMsg(w0, w1, c0, c1), Fields(c0) + Fields(c1);
            && (|rest| == 2 ==> ParseByteMsg(row) == Returned(SenderTexts(w0, w1, rest[0], rest[1])))
            && (ParseByteMsg(row).Returned? && |rest| != 2 ==>
                  var m := ParseByteMsg(row).value; ElementText(m.w0) && (Proper(m.w0) <==> !Proper(w0)))
  {
    hide *;
    var row, rest := PrintSenderMsg(w0, w1, c0, c1), Fields(c0) + Fields(c1);
    SameKindMeans(w0, w1);
    SenderFields(w0, w1, c0, c1);
    FieldsProper(row);
    RegroupFour(Fields(w0), Fields(w1), Fields(c0), Fields(c1));
    if Proper(w0) {
      OneFieldOf(w0);
      OneFieldOf(w1);
      OneFieldElements(w0, w1, rest, row);
    } else {
      var a0, b0 := TwoFieldsOf(w0);
      var a1, b1 := TwoFieldsOf(w1);
      TwoFieldElements(w0, w1, a0, b0, a1, b1, rest, row);
    }
  }

  lemma SameKindMeans(w0: string, w1: string)
    requires SameKind(w0, w1)
    ensures ElementText(w0) && ElementText(w1) && (Proper(w0) <==> Proper(w1))
  {
  }

  lemma OneFieldOf(w: string)
    requires Proper(w)
    ensures Fields(w) == [w]
  {
    FieldOfProper(w);
  }

  lemma TwoFieldsOf(w: string) returns (a: string, b: string)
    requires ElementText(w) && !Proper(w)
    ensures w == a + [COLON] + b && Fields(w) == [a, b]
  {
    a, b :| Proper(a) && Proper(b) && w == a + [COLON] + b;
    TwoFields(a, b);
  }

  lemma RegroupFour(a: seq<string>, b: seq<string>, c: seq<string>, d: seq<string>)
    ensures a + b + c + d == a + b + (c + d)
  {
  }

  lemma OneFieldElements(w0: string, w1: string, rest: seq<string>, row: string)
    requires Fields(row) == [w0] + [w1] + rest && AllProper(Fields(row))
    ensures |rest| == 2 ==> ParseByteMsg(row) == Returned(SenderTexts(w0, w1, rest[0], rest[1]))
    ensures ParseByteMsg(row).Returned? && |rest| != 2 ==>
      ElementText(ParseByteMsg(row).value.w0) && !Proper(ParseByteMsg(row).value.w0)
  {
    var v := Fields(row);
    hide Fields, ElementText;
    if |v| == 6 {
      TwoFieldsImproper(v[0], v[1]);
    }
  }

  lemma TwoFieldElements(w0: string, w1: string, a0: string, b0: string, a1: string, b1: string, rest: seq<string>,
                         row: string)
    requires w0 == a0 + [COLON] + b0 && w1 == a1 + [COLON] + b1
    requires Fields(row) == [a0, b0] + [a1, b1] + rest && AllProper(Fields(row))
    ensures |rest| == 2 ==> ParseByteMsg(row) == Returned(SenderTexts(w0, w1, rest[0], rest[1]))
    ensures ParseByteMsg(row).Returned? && |rest| != 2 ==>
      ElementText(ParseByteMsg(row).value.w0) && Proper(ParseByteMsg(row).value.w0)
  {
    var v := Fields(row);
    hide Fields;
    assert v[0] == a0 && v[1] == b0 && v[2] == a1 && v[3] == b1;
    assert |rest| == 2 ==> v[4] == rest[0] && v[5] == rest[1];
  }

  lemma TwoFieldsImproper(a: string, b: string)
    requires Proper(a) && Proper(b)
    ensures ElementText(a + [COLON] + b) && !Proper(a + [COLON] + b)
  {
    assert (a + [COLON] + b)[|a|] == COLON;
  }

  /** The masked inputs are raw bytes; the message survives exactly when both are non-empty and
      neither contains the separator, in groups of both kinds. */
  lemma ByteMsgRoundTrip(w0: string, w1: string, c0: string, c1: string)
    requires SameKind(w0, w1)
    ensures ParseByteMsg(PrintSenderMsg(w0, w1, c0, c1)) == Returned(SenderTexts(w0, w1, c0, c1)) <==>
            Proper(c0) && Proper(c1)
  {
    hide *;
    ByteMsgRead(w0, w1, c0, c1);
    if Proper(c0) && Proper(c1) {
      OneFieldOf(c0);
      OneFieldOf(c1);
      TwoOnes(c0, c1);
    } else {
      RestProper(c0, c1);
    }
  }

  lemma TwoOnes(a: string, b: string)
    ensures [a] + [b] == [a, b]
  {
  }

  lemma RestProper(c0: string, c1: string)
    ensures var rest := Fields(c0) + Fields(c1); |rest| == 2 ==> Proper(rest[0]) && Proper(rest[1])
  {
    hide Fields;
    FieldsProper(c0);
    FieldsProper(c1);
  }

  lemma FourFields(row: string, f0: string, f1: string, f2: string, f3: string)
    requires Fields(row) == [f0] + [f1] + [f2] + [f3]
    ensures ParseElementMsg(row) == Returned(SenderTexts(f0, f1, f2, f3))
  {
    hide Fields;
  }

  lemma EightFields(row: string, a0: string, b0: string, a1: string, b1: string, a2: string, b2: string,
                    a3: string, b3: string)
    requires Fields(row) == [a0, b0] + [a1, b1] + [a2, b2] + [a3, b3]
    ensures ParseElementMsg(row) == Returned(SenderTexts(a0 + [COLON] + b0, a1 + [COLON] + b1,
                                                         a2 + [COLON] + b2, a3 + [COLON] + b3))
  {
    hide Fields;
  }

  /** A message of elements always survives. */
  lemma ElementMsgRoundTrip(w0: string, w1: string, c0: string, c1: string)
    requires SameKind(w0, w1) && SameKind(w1, c0) && SameKind(c0, c1)
    ensures ParseElementMsg(PrintSenderMsg(w0, w1, c0, c1)) == Returned(SenderTexts(w0, w1, c0, c1))
  {
    hide *;
    SameKindMeans(w0, w1);
    SameKindMeans(w1, c0);
    SameKindMeans(c0, c1);
    SenderFields(w0, w1, c0, c1);
    var row := PrintSenderMsg(w0, w1, c0, c1);
    if Proper(w0) {
      OneFieldOf(w0);
      OneFieldOf(w1);
      OneFieldOf(c0);
      OneFieldOf(c1);
      FourFields(row, w0, w1, c0, c1);
    } else {
      var a0, b0 := TwoFieldsOf(w0);
      var a1, b1 := TwoFieldsOf(w1);
      var a2, b2 := TwoFieldsOf(c0);
      var a3, b3 := TwoFieldsOf(c1);
      EightFields(row, a0, b0, a1, b1, a2, b2, a3, b3);
    }
  }
}
