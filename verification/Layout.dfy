/** The last stage of printing: digits and a decimal exponent become text in place. */
module Layout {
  import opened Basics
  import opened Powers
  import opened DigitGen
  import opened NumberText

  // ---------------------------------------------------------------- what a text means

  function CharDigit(c: char): int {
    c as int - '0' as int
  }

  /** An optional sign and at least one digit. */
  function ReadInt(s: string): Option<int> {
    if s == [] then None
    else if s[0] == '-' then
      (match ReadNat(s[1..], 0) case Some(v) => if s[1..] == [] then None else Some(-v) case None => None)
    else ReadNat(s, 0)
  }

  function ReadNat(s: string, v: nat): Option<int> {
    if s == [] then Some(v)
    else if IsDigit(s[0]) then ReadNat(s[1..], 10 * v + CharDigit(s[0]))
    else None
  }

  /** The integer `m` times ten to the power `e`. */
  datatype Number = Number(m: int, e: int)

  /** Reads digits, at most one point, and at most one exponent after 'e', as an integer and the power
      of ten it is multiplied with.  `m` are the digits so far, `frac` of them after the point. */
  function ReadNumber(s: string, m: nat, frac: nat, point: bool): Option<Number>
    decreases |s|
  {
    if s == [] then Some(Number(m, 0 - frac))
    else if IsDigit(s[0]) then
      ReadNumber(s[1..], 10 * m + CharDigit(s[0]), if point then frac + 1 else frac, point)
    else if s[0] == '.' && !point then ReadNumber(s[1..], m, frac, true)
    else if s[0] == 'e' then
      (match ReadInt(s[1..]) case Some(x) => Some(Number(m, x - frac)) case None => None)
    else None
  }

  // ---------------------------------------------------------------- the layout

  function Zeros(n: nat): (s: string)
    ensures |s| == n
    ensures forall k :: 0 <= k < n ==> s[k] == '0'
  {
    if n == 0 then "" else Zeros(n - 1) + "0"
  }

  function Decimals(len: nat, d: int): int {
    var most := if len > 2 then len - 1 else 1;
    if -d <= most then -d else most
  }

  function Exponent(d: int): string {
    "e" + I32Text(d)
  }

  /** The text for the digits `s` with decimal exponent `d`. */
  function Text(s: string, d: int): string
    requires |s| >= 1
  {
    if d < 0 && |s| > 1 then
      var k := Decimals(|s|, d);
      s[..|s| - k] + "." + s[|s| - k..] + (if d + k != 0 then Exponent(d + k) else "")
    else if d < 0 && d >= -3 then "." + Zeros(-d - 1) + s
    else if d < 0 || d > 2 then s + Exponent(d)
    else s + Zeros(d)
  }

  // ---------------------------------------------------------------- reading the layout back

  function Shifted(m: int, n: nat): int {
    m * Pow10(n)
  }

  lemma ShiftedSucc(m: int, n: nat)
    ensures Shifted(m, n + 1) == 10 * Shifted(m, n)
  {
    assert m * (10 * Pow10(n)) == 10 * (m * Pow10(n));
  }

  lemma NothingShifted(n: nat)
    ensures Shifted(0, n) == 0
  {
  }

  lemma {:induction false} ReadDigits(s: string, t: string, m: nat, frac: nat, point: bool, m': nat)
    requires IsDigits(s) && m' == Shifted(m, |s|) + DigitsValue(s)
    ensures ReadNumber(s + t, m, frac, point) == ReadNumber(t, m', if point then frac + |s| else frac, point)
  {
    if s == [] {
      assert s + t == t;
      assert Pow10(0) == 1;
    } else {
      var init, last := s[..|s| - 1], s[|s| - 1];
      assert s + t == init + ([last] + t);
      NonNegative(m, |s| - 1);
      var mid := Shifted(m, |s| - 1) + DigitsValue(init);
      ReadDigits(init, [last] + t, m, frac, point, mid);
      assert ([last] + t)[1..] == t;
      ShiftedSucc(m, |s| - 1);
    }
  }

  lemma NonNegative(m: nat, n: nat)
    ensures Shifted(m, n) >= 0
  {
  }

  lemma {:induction false} ReadNatDigits(s: string, t: string, v: nat, v': nat)
    requires IsDigits(s) && v' == Shifted(v, |s|) + DigitsValue(s)
    ensures ReadNat(s + t, v) == ReadNat(t, v')
  {
    if s == [] {
      assert s + t == t;
      assert Pow10(0) == 1;
    } else {
      var init, last := s[..|s| - 1], s[|s| - 1];
      assert s + t == init + ([last] + t);
      NonNegative(v, |s| - 1);
      ReadNatDigits(init, [last] + t, v, Shifted(v, |s| - 1) + DigitsValue(init));
      assert ([last] + t)[1..] == t;
      ShiftedSucc(v, |s| - 1);
    }
  }

  lemma ReadI32Text(i: int)
    ensures ReadInt(I32Text(i)) == Some(i)
  {
    var v := if i < 0 then -i else i;
    DecimalDigitsValue(v);
    NothingShifted(|DecimalDigits(v)|);
    ReadNatDigits(DecimalDigits(v), "", 0, v);
    assert DecimalDigits(v) + "" == DecimalDigits(v);
    if i < 0 {
      assert I32Text(i)[1..] == DecimalDigits(v);
    }
  }

  lemma {:induction false} ZerosValue(n: nat)
    ensures IsDigits(Zeros(n)) && DigitsValue(Zeros(n)) == 0
  {
    if n > 0 {
      ZerosValue(n - 1);
      AppendDigit(Zeros(n - 1), '0');
    }
  }

  lemma ReadExponent(m: nat, frac: nat, point: bool, d: int)
    ensures ReadNumber(Exponent(d), m, frac, point) == Some(Number(m, d - frac))
  {
    ReadI32Text(d);
    assert Exponent(d)[1..] == I32Text(d);
  }

  /** What the text reads as is the number that `n` and `d` stand for. */
  ghost predicate Denotes(text: string, n: int, d: int) {
    match ReadNumber(text, 0, 0, false)
    case Some(x) => Decimal(x.m, x.e) == Decimal(n, d)
    case None => false
  }

  /** Reading the text gives back exactly the number the digits and the exponent stand for. */
  lemma TextReadsBack(s: string, d: int)
    requires |s| >= 1 && IsDigits(s)
    ensures Denotes(Text(s, d), DigitsValue(s), d)
  {
    if d < 0 && |s| > 1 {
      PointTextReads(s, d);
    } else if d < 0 && d >= -3 {
      LeadingZerosRead(s, d);
    } else if d < 0 || d > 2 {
      ExponentTextReads(s, d);
    } else {
      TrailingZerosRead(s, d);
    }
  }

  lemma ExponentTextReads(s: string, d: int)
    requires IsDigits(s)
    ensures ReadNumber(s + Exponent(d), 0, 0, false) == Some(Number(DigitsValue(s), d))
  {
    NothingShifted(|s|);
    ReadDigits(s, Exponent(d), 0, 0, false, DigitsValue(s));
    ReadExponent(DigitsValue(s), 0, false, d);
  }

  lemma ReadPoint(t: string, m: nat)
    ensures ReadNumber("." + t, m, 0, false) == ReadNumber(t, m, 0, true)
  {
    assert ("." + t)[1..] == t;
  }

  lemma ReadFraction(b: string, tail: string, m: nat, x: int)
    requires IsDigits(b) && tail == (if x != 0 then Exponent(x) else "")
    ensures ReadNumber("." + (b + tail), m, 0, false) == Some(Number(Shifted(m, |b|) + DigitsValue(b), x - |b|))
  {
    ReadPoint(b + tail, m);
    NonNegative(m, |b|);
    var m' := Shifted(m, |b|) + DigitsValue(b);
    ReadDigits(b, tail, m, 0, true, m');
    if x != 0 {
      ReadExponent(m', |b|, true, x);
    }
  }

  lemma PointText(s: string, d: int)
    requires d < 0 && |s| > 1
    ensures var k := Decimals(|s|, d);
            1 <= k < |s| && Text(s, d) ==
            s[..|s| - k] + ("." + (s[|s| - k..] + (if d + k != 0 then Exponent(d + k) else "")))
  {
    var k := Decimals(|s|, d);
    Regroup(s[..|s| - k], s[|s| - k..], if d + k != 0 then Exponent(d + k) else "");
  }

  lemma Regroup(a: string, b: string, tail: string)
    ensures a + "." + b + tail == a + ("." + (b + tail))
  {
  }

  lemma PointTextReads(s: string, d: int)
    requires d < 0 && |s| > 1 && IsDigits(s)
    ensures ReadNumber(Text(s, d), 0, 0, false) == Some(Number(DigitsValue(s), d))
  {
    var k := Decimals(|s|, d);
    PointText(s, d);
    SplitTextReads(Text(s, d), s, |s| - k, d + k, if d + k != 0 then Exponent(d + k) else "", d);
  }

  /** Digits with a point before position `p`, and an exponent unless it is zero. */
  lemma SplitTextReads(text: string, s: string, p: nat, x: int, tail: string, e: int)
    requires p <= |s| && IsDigits(s) && tail == (if x != 0 then Exponent(x) else "")
    requires text == s[..p] + ("." + (s[p..] + tail)) && e == x - (|s| - p)
    ensures ReadNumber(text, 0, 0, false) == Some(Number(DigitsValue(s), e))
  {
    var a, b := s[..p], s[p..];
    NothingShifted(|a|);
    ReadDigits(a, "." + (b + tail), 0, 0, false, DigitsValue(a));
    ReadFraction(b, tail, DigitsValue(a), x);
    assert s == a + b;
    DigitsSplit(a, b);
  }

  lemma {:induction false} DigitsSplit(a: string, b: string)
    requires IsDigits(a) && IsDigits(b)
    ensures IsDigits(a + b) && DigitsValue(a + b) == Shifted(DigitsValue(a), |b|) + DigitsValue(b)
  {
    if b == [] {
      assert a + b == a;
      assert Pow10(0) == 1;
    } else {
      var init, last := b[..|b| - 1], b[|b| - 1];
      DigitsSplit(a, init);
      assert a + b == (a + init) + [last];
      AppendDigit(a + init, last);
      ShiftedSucc(DigitsValue(a), |init|);
    }
  }

  lemma LeadingZerosRead(s: string, d: int)
    requires -3 <= d < 0 && |s| == 1 && IsDigits(s)
    ensures ReadNumber(Text(s, d), 0, 0, false) == Some(Number(DigitsValue(s), d))
  {
    LeadingZerosText(s, d);
    ZerosBeforeRead(Text(s, d), s, -d - 1, d);
  }

  lemma ZerosBeforeRead(text: string, s: string, n: nat, d: int)
    requires |s| == 1 && IsDigits(s) && d + n + 1 == 0
    requires var z := Zeros(n) + s; text == z[..0] + ("." + (z[0..] + ""))
    ensures ReadNumber(text, 0, 0, false) == Some(Number(DigitsValue(s), d))
  {
    ZerosValue(n);
    DigitsSplit(Zeros(n), s);
    NothingShifted(|s|);
    SplitTextReads(text, Zeros(n) + s, 0, 0, "", d);
  }

  lemma LeadingZerosText(s: string, d: int)
    requires -3 <= d < 0 && |s| == 1
    ensures var z := Zeros(-d - 1) + s;
            Text(s, d) == z[..0] + ("." + (z[0..] + ""))
  {
  }

  lemma TrailingZerosRead(s: string, d: int)
    requires 0 <= d <= 2 && |s| >= 1 && IsDigits(s)
    ensures Denotes(s + Zeros(d), DigitsValue(s), d)
  {
    var v, v' := DigitsValue(s), Shifted(DigitsValue(s), d);
    NonNegative(v, d);
    ZerosValue(d);
    NothingShifted(|s|);
    ReadDigits(s, Zeros(d), 0, 0, false, v);
    assert Zeros(d) + "" == Zeros(d);
    ReadDigits(Zeros(d), "", v, 0, false, v');
    ShiftedDecimal(v, d);
  }

  lemma ShiftedDecimal(v: int, d: nat)
    ensures Decimal(Shifted(v, d), 0) == Decimal(v, d)
  {
    ExpIsPow10(d);
    assert (v * Pow10(d)) as real == v as real * Pow10(d) as real;
    assert Exp(10.0, 0) == 1.0;
  }

  // ---------------------------------------------------------------- which layout

  /** An exponent is written just if the text without one would be longer; but digits with a point among or before them
      get one just if no digit would be left of the point, and then one digit stands there. */
  lemma ExponentIff(s: string, d: int)
    requires |s| >= 1 && IsDigits(s)
    ensures 'e' in Text(s, d) <==> if d >= 0 then |Exponent(d)| < d
                                   else if |s| == 1 then |Exponent(d)| < -d
                                   else |s| <= -d
    ensures 'e' in Text(s, d) && d < 0 && |s| > 1 ==> Text(s, d)[1] == '.'
  {
    DigitsAreFewer(if d < 0 then -d else d);
    if d < 0 && |s| > 1 {
      PointTextForm(s, d);
    } else if d < 0 && d >= -3 {
      NoExponentIn(Zeros(-d - 1));
      NoExponentIn(s);
      assert 'e' !in ".";
    } else if d < 0 || d > 2 {
      assert (s + Exponent(d))[|s|] == 'e';
    } else {
      NoExponentIn(Zeros(d));
      NoExponentIn(s);
    }
  }

  lemma PointTextForm(s: string, d: int)
    requires d < 0 && |s| > 1 && IsDigits(s)
    ensures 'e' in Text(s, d) <==> |s| <= -d
    ensures 'e' in Text(s, d) ==> Text(s, d)[1] == '.'
  {
    var k := Decimals(|s|, d);
    var front, tail := s[..|s| - k] + "." + s[|s| - k..], if d + k != 0 then Exponent(d + k) else "";
    NoExponentIn(s);
    assert 'e' !in front;
    assert Text(s, d) == front + tail;
    assert tail != "" ==> tail[0] == 'e';
    assert front[|s| - k] == '.';
  }

  lemma NoExponentIn(s: string)
    requires IsDigits(s)
    ensures 'e' !in s
  {
  }

  lemma {:induction false} DigitsAreFewer(v: nat)
    ensures v < 10 ==> |DecimalDigits(v)| == 1
    ensures v >= 10 ==> |DecimalDigits(v)| + 7 < v
  {
    if v >= 10 {
      DigitsAreFewer(v / 10);
    }
  }

  // ---------------------------------------------------------------- in place

  lemma I32TextLength(i: int)
    requires -0x8000_0000 <= i < 0x8000_0000
    ensures |I32Text(i)| <= 11
  {
    DecimalDigitsOfWord(if i < 0 then -i else i);
  }

  /** The text is at most 13 characters longer than the digits. */
  lemma TextLength(s: string, d: int)
    requires |s| >= 1 && -0x8000_0000 <= d < 0x8000_0000
    ensures |Text(s, d)| <= |s| + 13
  {
    if d < 0 && |s| > 1 {
      I32TextLength(d + Decimals(|s|, d));
    } else {
      I32TextLength(d);
    }
  }

  /** Makes room for a character `decimals` places before the end. */
  method ShiftRight(s2: array<char>, len: nat, decimals: nat)
    requires decimals <= len < s2.Length
    modifies s2
    ensures s2[..len - decimals] == old(s2[..len - decimals])
    ensures s2[len - decimals + 1..len + 1] == old(s2[len - decimals..len])
  {
    ghost var was := s2[..];
    for i := 0 to decimals
      invariant forall j :: len - i < j <= len ==> s2[j] == was[j - 1]
      invariant forall j :: 0 <= j <= len - i ==> s2[j] == was[j]
    {
      s2[len - i] := s2[len - i - 1];
    }
  }

  method AppendExponent(s2: array<char>, len0: nat, d: i32) returns (len: nat)
    requires len0 + 13 <= s2.Length
    modifies s2
    ensures len <= len0 + 12 && s2[..len] == old(s2[..len0]) + Exponent(d as int)
  {
    ghost var was := s2[..len0];
    s2[len0] := 'e';
    assert s2[..len0 + 1] == was + "e";
    var n := I32ToString(d, s2, len0 + 1);
    len := len0 + 1 + n;
    assert s2[..len] == s2[..len0 + 1] + s2[len0 + 1..len];
  }

  method LeadingZeros(s2: array<char>, len0: nat, dExp: int) returns (len: nat)
    requires len0 == 1 && -3 <= dExp < 0 && len0 + 3 < s2.Length
    modifies s2
    ensures len == len0 - dExp && s2[..len] == "." + Zeros(-dExp - 1) + old(s2[..len0])
  {
    ghost var was := s2[..];
    len := len0;
    for i := 0 to len
      invariant forall j :: len - dExp - 1 - i < j <= len - dExp - 1 ==> s2[j] == was[j + dExp]
      invariant forall j :: 0 <= j < len - i ==> s2[j] == was[j]
    {
      s2[len - dExp - 1 - i] := s2[len - i - 1];
    }
    s2[0] := '.';
    for i := 1 to -dExp
      invariant s2[0] == '.' && s2[-dExp] == was[0]
      invariant forall j :: 1 <= j < i ==> s2[j] == '0'
    {
      s2[i] := '0';
    }
    len := len + -dExp;
  }

  method TrailingZeros(s2: array<char>, len0: nat, dExp0: nat) returns (len: nat)
    requires len0 + dExp0 <= s2.Length
    modifies s2
    ensures len == len0 + dExp0 && s2[..len] == old(s2[..len0]) + Zeros(dExp0)
  {
    var dExp := dExp0;
    len := len0;
    assert Zeros(0) == "" && s2[..len] + "" == s2[..len];
    while dExp > 0
      invariant 0 <= dExp <= dExp0 && dExp + len == dExp0 + len0
      invariant s2[..len] == old(s2[..len0]) + Zeros(dExp0 - dExp)
    {
      ghost var before := s2[..len];
      s2[len] := '0';
      assert s2[..len + 1] == before + "0";
      len := len + 1;
      dExp := dExp - 1;
    }
  }

  /** The layout stage of `dtoa_grisu3`: turns the first `len0` characters into the finished text. */
  method LayOut(s2: array<char>, len0: nat, dExp0: i32) returns (len: nat)
    requires 1 <= len0 && len0 + 14 <= s2.Length
    modifies s2
    ensures len <= len0 + 13 && s2[len] == '\0'
    ensures s2[..len] == Text(old(s2[..len0]), dExp0 as int)
  {
    len := len0;
    ghost var s := s2[..len0];
    var dExp := dExp0;
    TextLength(s, dExp0 as int);
    if dExp < 0 && len > 1 {
      len := LayOutPoint(s2, len, dExp);
    } else if dExp < 0 && dExp >= -3 {
      len := LeadingZeros(s2, len, dExp as int);
    } else if dExp < 0 || dExp > 2 {
      len := AppendExponent(s2, len, dExp);
    } else if dExp > 0 {
      len := TrailingZeros(s2, len, dExp as int);
    } else {
      assert Zeros(0) == "" && s + "" == s;
    }
    ghost var text := s2[..len];
    assert text == Text(s, dExp0 as int);
    s2[len] := '\0';
    assert s2[..len] == text;
  }

  /** More than one digit and a negative exponent: a point, and an exponent for what it does not cover. */
  method LayOutPoint(s2: array<char>, len0: nat, dExp0: i32) returns (len: nat)
    requires len0 > 1 && dExp0 < 0 && len0 + 14 <= s2.Length
    modifies s2
    ensures len <= len0 + 13
    ensures s2[..len] == Text(old(s2[..len0]), dExp0 as int)
  {
    ghost var s := s2[..len0];
    var decimals := Decimals(len0, dExp0 as int);
    assert s2[..len0 - decimals] == s[..len0 - decimals];
    assert s2[len0 - decimals..len0] == s[len0 - decimals..];
    InsertPoint(s2, len0, decimals);
    len := len0 + 1;
    PointedText(s, dExp0 as int, decimals, s2[..len]);
    var dExp := (dExp0 as int + decimals) as i32;
    if dExp != 0 {
      len := AppendExponent(s2, len, dExp);
    }
  }

  lemma PointedText(s: string, d: int, k: nat, pointed: string)
    requires d < 0 && |s| > 1 && k == Decimals(|s|, d) <= |s|
    requires pointed == s[..|s| - k] + "." + s[|s| - k..]
    ensures Text(s, d) == if d + k != 0 then pointed + Exponent(d + k) else pointed
  {
    WithoutTail(pointed);
  }

  lemma WithoutTail(s: string)
    ensures s + "" == s
  {
  }

  method InsertPoint(s2: array<char>, len0: nat, decimals: nat)
    requires 1 <= decimals < len0 < s2.Length
    modifies s2
    ensures s2[..len0 + 1] == old(s2[..len0 - decimals]) + "." + old(s2[len0 - decimals..len0])
  {
    ghost var before, behind := s2[..len0 - decimals], s2[len0 - decimals..len0];
    ShiftRight(s2, len0, decimals);
    s2[len0 - decimals] := '.';
    assert s2[..len0 - decimals] == before && s2[len0 - decimals + 1..len0 + 1] == behind;
    assert s2[..len0 + 1] == s2[..len0 - decimals] + [s2[len0 - decimals]] + s2[len0 - decimals + 1..len0 + 1];
  }
}
