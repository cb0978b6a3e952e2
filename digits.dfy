/**
 Decimal digit strings over ASCII: the value Python's `int(...)` gives a
 string of digits, and the zero padding that `strftime` uses for `%Y`,
 `%m`, `%d`, `%H`, `%M` and `%S`.
 */
module Digits {

  predicate IsDigit(c: char) {
    '0' <= c <= '9'
  }

  predicate AllDigits(s: string) {
    forall i :: 0 <= i < |s| ==> IsDigit(s[i])
  }

  function DigitValue(c: char): nat {
    if IsDigit(c) then c as int - '0' as int else 0
  }

  function DigitChar(n: nat): char
    requires n < 10
  {
    ('0' as int + n) as char
  }

  /** `int(s)` for a string of ASCII digits (leading zeros allowed). */
  function Value(s: string): nat {
    if s == [] then 0 else Value(s[..|s| - 1]) * 10 + DigitValue(s[|s| - 1])
  }

  function Pow10(w: nat): nat {
    if w == 0 then 1 else 10 * Pow10(w - 1)
  }

  /** The `width` low-order decimal digits of `n`, most significant first. */
  function Pad(n: nat, width: nat): (r: string)
    ensures |r| == width && AllDigits(r)
  {
    if width == 0 then [] else Pad(n / 10, width - 1) + [DigitChar(n % 10)]
  }

  /** Zero padding loses nothing when the number fits the width. */
  lemma {:induction false} ValueOfPad(n: nat, width: nat)
    requires n < Pow10(width)
    ensures Value(Pad(n, width)) == n
  {
    if width > 0 {
      var p := Pad(n / 10, width - 1);
      ValueOfPad(n / 10, width - 1);
      assert (p + [DigitChar(n % 10)])[..width - 1] == p;
    }
  }

  /** A digit string denotes zero exactly when every digit is '0'. */
  lemma {:induction false} ValueZeroIffAllZeros(s: string)
    requires AllDigits(s)
    ensures Value(s) == 0 <==> forall i :: 0 <= i < |s| ==> s[i] == '0'
  {
    if s != [] {
      var init := s[..|s| - 1];
      assert AllDigits(init) by {
        forall i | 0 <= i < |init| ensures IsDigit(init[i]) {
          assert init[i] == s[i];
        }
      }
      ValueZeroIffAllZeros(init);
      assert Value(s) == Value(init) * 10 + DigitValue(s[|s| - 1]);
      forall i | 0 <= i < |init| ensures init[i] == s[i] {
      }
    }
  }

  /** Padding the value of a digit string to its own width gives the string back. */
  lemma {:induction false} PadOfValue(s: string)
    requires AllDigits(s)
    ensures Pad(Value(s), |s|) == s
  {
    if s != [] {
      var init := s[..|s| - 1];
      assert AllDigits(init) by {
        forall i | 0 <= i < |init| ensures IsDigit(init[i]) {
          assert init[i] == s[i];
        }
      }
      PadOfValue(init);
      var n := Value(s);
      assert n == Value(init) * 10 + DigitValue(s[|s| - 1]);
      assert n / 10 == Value(init) && n % 10 == DigitValue(s[|s| - 1]);
      assert s == init + [s[|s| - 1]];
    }
  }
}
