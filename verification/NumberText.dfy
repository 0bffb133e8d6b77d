/** Writing numbers into a character buffer: integers, and decimal digits with their exponent. */
module NumberText {
  import opened Basics
  import opened Words
  import opened Powers
  import opened DigitGen

  // ---------------------------------------------------------------- unsigned integers

  function DecimalDigits(v: nat): (s: string)
    ensures |s| >= 1
  {
    if v < 10 then [DigitChar(v)] else DecimalDigits(v / 10) + [DigitChar(v % 10)]
  }

  lemma {:induction false} DecimalDigitsValue(v: nat)
    ensures IsDigits(DecimalDigits(v)) && DigitsValue(DecimalDigits(v)) == v
    ensures v > 0 ==> DecimalDigits(v)[0] != '0'
  {
    if v < 10 {
      assert [DigitChar(v)][..0] == [];
    } else {
      DecimalDigitsValue(v / 10);
      AppendDigit(DecimalDigits(v / 10), DigitChar(v % 10));
    }
  }

  /** There is no other digit string for a number, short of leading zeros. */
  lemma {:induction false} DecimalDigitsUnique(s: string)
    requires |s| >= 1 && IsDigits(s) && (|s| > 1 ==> s[0] != '0')
    ensures DecimalDigits(DigitsValue(s)) == s
  {
    var init, last := s[..|s| - 1], s[|s| - 1];
    if |s| > 1 {
      DecimalDigitsUnique(init);
      LeadingDigitCounts(init);
    }
    DecimalDigitsGrow(init, last, DigitsValue(init));
    AppendDigit(init, last);
    assert s == init + [last];
  }

  lemma DecimalDigitsGrow(init: string, last: char, v: nat)
    requires IsDigit(last) && (if init == "" then v == 0 else v > 0 && DecimalDigits(v) == init)
    ensures DecimalDigits(10 * v + (last as int - '0' as int)) == init + [last]
  {
  }

  lemma {:induction false} LeadingDigitCounts(s: string)
    requires |s| >= 1 && IsDigits(s) && s[0] != '0'
    ensures DigitsValue(s) >= 1
  {
    if |s| > 1 {
      LeadingDigitCounts(s[..|s| - 1]);
    }
  }

  lemma {:induction false} DecimalDigitsLength(v: nat, n: nat)
    requires n >= 1 && v < Pow10(n)
    ensures |DecimalDigits(v)| <= n
  {
    if v >= 10 {
      assert n > 1 by {
        assert Pow10(1) == 10;
      }
      DecimalDigitsLength(v / 10, n - 1);
    }
  }

  function Reversed(s: string): (r: string)
    ensures |r| == |s|
    ensures forall k :: 0 <= k < |s| ==> r[k] == s[|s| - 1 - k]
  {
    if s == [] then [] else Reversed(s[1..]) + [s[0]]
  }

  lemma ReversedOnto(s: string, c: char)
    ensures Reversed(s + [c]) == [c] + Reversed(s)
  {
  }

  /** Writes `val0` at `off`, followed by a terminator, and returns the number of characters. */
  method U32ToString(val0: u32, str: array<char>, off: nat) returns (len: nat)
    requires off + 11 <= str.Length
    modifies str
    ensures len <= 10 && str[off..off + len] == DecimalDigits(val0 as int) && str[off + len] == '\0'
    ensures str[..off] == old(str[..off])
  {
    var s := EmitDigits(val0, str, off);
    len := Terminate(str, off, s);
  }

  /** The digits, from the last to the first. */
  method EmitDigits(val0: u32, str: array<char>, off: nat) returns (s: nat)
    requires off + 11 <= str.Length
    modifies str
    ensures off <= s <= off + 10 && DecimalDigits(val0 as int) == Reversed(str[off..s])
    ensures str[..off] == old(str[..off])
  {
    var val := val0;
    s := off;
    ghost var all := DecimalDigits(val0 as int);
    NothingEmitted(val0 as int);
    while true
      invariant off <= s <= off + 9 && Emitted(all, val as int, str[off..s])
      invariant str[..off] == old(str[..off])
      decreases val
    {
      var ni := val / 10;
      var digit := val - ni * 10;
      EmitDigit(str, s, off, digit as int, all, val as int);
      s := s + 1;
      if ni == 0 {
        break;
      }
      val := ni;
    }
  }

  /** The digits of `v` are still to come, before those that were emitted from the right. */
  ghost predicate Emitted(all: string, v: nat, done: string) {
    |all| <= 10 && all == DecimalDigits(v) + Reversed(done)
  }

  lemma NothingEmitted(v: nat)
    requires v < 0x1_0000_0000
    ensures Emitted(DecimalDigits(v), v, "")
  {
    DecimalDigitsOfWord(v);
    assert DecimalDigits(v) + Reversed("") == DecimalDigits(v);
  }

  /** The end of the text, and its characters in order. */
  method Terminate(str: array<char>, off: nat, s: nat) returns (len: nat)
    requires off <= s < str.Length
    modifies str
    ensures len == s - off && str[off..s] == Reversed(old(str[off..s])) && str[s] == '\0'
    ensures str[..off] == old(str[..off])
  {
    str[s] := '\0';
    len := s - off;
    assert str[off + len..][0] == '\0';
    ReverseRange(str, off, len);
    assert str[off + len..][0] == '\0';
  }

  method EmitDigit(str: array<char>, s: nat, off: nat, digit: int, ghost all: string, ghost v: nat)
    requires off <= s < str.Length && 0 <= digit <= 9 && digit == v % 10 && Emitted(all, v, str[off..s])
    modifies str
    ensures str[..off] == old(str[..off])
    ensures if v < 10 then s - off <= 9 && all == Reversed(str[off..s + 1])
            else s - off < 9 && Emitted(all, v / 10, str[off..s + 1])
  {
    ghost var done := str[off..s];
    str[s] := DigitChar(digit);
    assert str[off..s + 1] == done + [DigitChar(digit)];
    DigitsPrepend(v, all, done);
  }

  /** What is left of the number shrinks by the digit just emitted. */
  lemma DigitsPrepend(v: nat, all: string, done: string)
    requires Emitted(all, v, done)
    ensures var done' := done + [DigitChar(v % 10)];
            if v < 10 then |done| <= 9 && all == Reversed(done')
            else |done| < 9 && Emitted(all, v / 10, done')
  {
    var c, back := DigitChar(v % 10), Reversed(done);
    ReversedOnto(done, c);
    if v >= 10 {
      assert (DecimalDigits(v / 10) + [c]) + back == DecimalDigits(v / 10) + ([c] + back);
    }
  }

  lemma DecimalDigitsOfWord(v: nat)
    requires v < 0x1_0000_0000
    ensures |DecimalDigits(v)| <= 10
  {
    assert Pow10(5) == 10_0000;
    Pow10Add(5, 5);
    DecimalDigitsLength(v, 10);
  }

  /** The swapping loop of `u32_to_string`. */
  method ReverseRange(str: array<char>, off: nat, len: nat)
    requires off + len <= str.Length
    modifies str
    ensures str[off..off + len] == Reversed(old(str[off..off + len]))
    ensures str[..off] == old(str[..off]) && str[off + len..] == old(str[off + len..])
  {
    ghost var was, mirror := str[..], 2 * off + len - 1;
    var i := 0;
    while i < len / 2
      invariant 0 <= i <= len / 2
      invariant forall j :: off <= j < off + i || off + len - i <= j < off + len ==> str[j] == was[mirror - j]
      invariant forall j :: 0 <= j < off || off + i <= j < off + len - i || off + len <= j < str.Length ==>
                str[j] == was[j]
    {
      Swap(str, off + i, off + len - 1 - i);
      i := i + 1;
    }
    MirroredIsReversed(str[..], was, off, len);
  }

  method Swap(str: array<char>, i: nat, j: nat)
    requires i < j < str.Length
    modifies str
    ensures str[i] == old(str[j]) && str[j] == old(str[i])
    ensures forall k :: 0 <= k < str.Length && k != i && k != j ==> str[k] == old(str[k])
  {
    var ch := str[i];
    str[i] := str[j];
    str[j] := ch;
  }

  lemma MirroredIsReversed(now: string, was: string, off: nat, len: nat)
    requires |now| == |was| >= off + len
    requires forall j :: off <= j < off + len ==> now[j] == was[2 * off + len - 1 - j]
    requires forall j :: 0 <= j < off || off + len <= j < |now| ==> now[j] == was[j]
    ensures now[off..off + len] == Reversed(was[off..off + len])
    ensures now[..off] == was[..off] && now[off + len..] == was[off + len..]
  {
    var r := Reversed(was[off..off + len]);
    forall k | 0 <= k < len
      ensures now[off..off + len][k] == r[k]
    {
      assert now[off..off + len][k] == now[off + k];
      assert r[k] == was[off..off + len][len - 1 - k];
    }
  }

  // ---------------------------------------------------------------- signed integers

  newtype i32 = x: int | -0x8000_0000 <= x < 0x8000_0000

  function I32Text(i: int): (s: string)
    ensures |s| >= 1
  {
    if i < 0 then "-" + DecimalDigits(-i) else DecimalDigits(i)
  }

  method I32ToString(i: i32, str: array<char>, off: nat) returns (len: nat)
    requires off + 12 <= str.Length
    modifies str
    ensures len <= 11 && str[off..off + len] == I32Text(i as int) && str[off + len] == '\0'
    ensures str[..off] == old(str[..off])
  {
    if i < 0 {
      str[off] := '-';
      ghost var signed := str[..off + 1];
      var n := NegativeToString(i, str, off + 1);
      PrependSign(signed, str[..], off, DecimalDigits(-(i as int)));
      return n + 1;
    }
    len := U32ToString(i as int as u32, str, off);
  }

  /** What follows the sign; the smallest number has no positive counterpart of its type. */
  method NegativeToString(i: i32, str: array<char>, off: nat) returns (len: nat)
    requires i < 0 && off + 11 <= str.Length
    modifies str
    ensures len <= 10 && str[off..off + len] == DecimalDigits(-(i as int)) && str[off + len] == '\0'
    ensures str[..off] == old(str[..off])
  {
    if i == -0x8000_0000 {
      SmallestIntText(-(i as int));
      CopyLiteral("2147483648", str, off);
      return 10;
    }
    len := U32ToString((-i) as int as u32, str, off);
  }

  lemma PrependSign(signed: string, now: string, off: nat, text: string)
    requires |signed| == off + 1 && signed[off] == '-' && off + 1 + |text| <= |now|
    requires now[..off + 1] == signed && now[off + 1..off + 1 + |text|] == text
    ensures now[off..off + 1 + |text|] == "-" + text
    ensures now[..off] == signed[..off]
  {
    assert now[off] == now[..off + 1][off];
    assert now[off..off + 1 + |text|] == [now[off]] + now[off + 1..off + 1 + |text|];
  }

  /** `strcpy` of a literal. */
  method CopyLiteral(s: string, str: array<char>, off: nat)
    requires off + |s| < str.Length
    modifies str
    ensures str[off..off + |s|] == s && str[off + |s|] == '\0'
    ensures str[..off] == old(str[..off])
  {
    for j := 0 to |s|
      invariant str[off..off + j] == s[..j]
      invariant str[..off] == old(str[..off])
    {
      str[off + j] := s[j];
    }
    str[off + |s|] := '\0';
  }

  lemma SmallestIntText(v: nat)
    requires v == 2147483648
    ensures DecimalDigits(v) == "2147483648"
  {
    assert DecimalDigits(2) == "2" && DecimalDigits(21) == "21" && DecimalDigits(214) == "214";
    assert DecimalDigits(2147) == "2147" && DecimalDigits(21474) == "21474" && DecimalDigits(214748) == "214748";
    assert DecimalDigits(2147483) == "2147483" && DecimalDigits(21474836) == "21474836";
    assert DecimalDigits(214748364) == "214748364";
  }
}
