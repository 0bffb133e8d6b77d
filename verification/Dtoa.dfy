/** Printing a double: the outer function around digit generation and layout. */
module Dtoa {
  import opened Words
  import opened DiyFp
  import opened DigitGen
  import opened NumberText
  import opened Layout
  import opened Grisu
  import opened DigitsOnce

  /** Text written by this code, or handed to `sprintf` (not a number, or no safe digits found). */
  datatype Outcome = Written(length: nat) | Fallback

  /** The text reads as some `n` times ten to the `k` that is a correct answer for `bits`. */
  ghost predicate DenotesCorrectly(text: string, bits: u64)
    requires IsPositiveFinite(bits)
  {
    exists n: int, k: int :: Denotes(text, n, k) && IsCorrect(bits, n, k, true)
  }

  /** The bits but for the sign. */
  function Magnitude(bits: u64): (r: u64)
    ensures r < 0x8000_0000_0000_0000
    ensures r == if bits >= 0x8000_0000_0000_0000 then bits - 0x8000_0000_0000_0000 else bits
  {
    bits % 0x8000_0000_0000_0000
  }

  /** The conversion reports that its digits are not safe. */
  ghost predicate GaveUp(bits: u64)
    requires IsPositiveFinite(bits)
  {
    exists n: nat, k: int :: Converts(bits, n, k, false)
  }

  lemma SafeOnce(bits: u64, n: nat, k: int)
    requires IsPositiveFinite(bits) && Converts(bits, n, k, true)
    ensures !GaveUp(bits)
  {
    if n': nat, k': int :| Converts(bits, n', k', false) {
      ConvertsOnce(bits, n, k, true, n', k', false);
    }
  }

  /** The outcome for the absolute value `bits`, with `s2` the buffer. */
  ghost predicate IsPrinted(bits: u64, r: Outcome, s2: string) {
    && (bits > 0x7FF0_0000_0000_0000 ==> r == Fallback)
    && (IsPositiveFinite(bits) ==> (r == Fallback <==> GaveUp(bits)))
    && (r.Written? ==> r.length < 34 <= |s2| && s2[r.length] == '\0')
    && (bits == 0 ==> r.Written? && s2[..r.length] == "0")
    && (bits == 0x7FF0_0000_0000_0000 ==> r.Written? && s2[..r.length] == "inf")
    && (r.Written? && IsPositiveFinite(bits) ==> DenotesCorrectly(s2[..r.length], bits))
  }

  /** Prints the double `bits`, not a number, negative, zero, infinite or finite.  The sign goes to
      `sign`, the rest to `s2`, which stands for the destination from behind the sign. */
  method DtoaGrisu3(bits0: u64, s2: array<char>) returns (r: Outcome, sign: string)
    requires s2.Length >= 34
    modifies s2
    ensures IsPrinted(Magnitude(bits0), r, s2[..])
    ensures sign == if bits0 >= 0x8000_0000_0000_0000 && Magnitude(bits0) <= 0x7FF0_0000_0000_0000 then "-" else ""
  {
    var bits := bits0;
    sign := "";
    if Magnitude(bits) > 0x7FF0_0000_0000_0000 {  // (u64 << 1) > 0xFFE0000000000000
      return Fallback, sign;
    }
    if bits >= 0x8000_0000_0000_0000 {
      sign := "-";
      bits := bits - 0x8000_0000_0000_0000;
    }
    assert bits == Magnitude(bits0);
    r := PrintMagnitude(bits, s2);
  }

  /** Zero, infinity, and all in between. */
  method PrintMagnitude(bits: u64, s2: array<char>) returns (r: Outcome)
    requires bits <= 0x7FF0_0000_0000_0000 && s2.Length >= 34
    modifies s2
    ensures IsPrinted(bits, r, s2[..])
  {
    if bits == 0 {
      s2[0], s2[1] := '0', '\0';
      assert s2[..][..1] == "0";
      r := Written(1);
    } else if bits == 0x7FF0_0000_0000_0000 {
      s2[0], s2[1], s2[2], s2[3] := 'i', 'n', 'f', '\0';
      assert s2[..][..3] == "inf";
      r := Written(3);
    } else {
      r := PrintPositive(bits, s2);
      if r.Written? {
        assert s2[..][..r.length] == s2[..r.length];
      }
    }
  }

  /** When the digits are this code's own, the text denotes a number strictly inside the rounding
      interval, with as few digits as any there, and the nearest of those. */
  method PrintPositive(bits: u64, s2: array<char>) returns (r: Outcome)
    requires IsPositiveFinite(bits) && s2.Length >= 34
    modifies s2
    ensures r.Written? ==> r.length <= 33 && s2[r.length] == '\0'
    ensures r.Fallback? <==> GaveUp(bits)
    ensures r.Written? ==> DenotesCorrectly(s2[..r.length], bits)
  {
    var success, len, dExp := Grisu3(bits, s2);
    if !success {
      assert Converts(bits, DigitsValue(s2[..len]), dExp, false);
      return Fallback;
    }
    SafeOnce(bits, DigitsValue(s2[..len]), dExp);
    ghost var digits := s2[..len];
    len := LayOut(s2, len, dExp as i32);
    TextReadsBack(digits, dExp);
    return Written(len);
  }
}
