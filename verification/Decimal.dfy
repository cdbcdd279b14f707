/** Decimal text: what %d and %0Nd print, and the number a run of digits stands for. */
module Decimal {
  predicate IsDigit(c: char) { '0' <= c <= '9' }

  predicate AllDigits(s: string) {
    forall c <- s :: IsDigit(c)
  }

  function DigitChar(d: nat): (c: char)
    requires d < 10
    ensures IsDigit(c) && DigitValue(c) == d
  {
    ('0' as int + d) as char
  }

  function DigitValue(c: char): nat
    requires IsDigit(c)
  {
    c as int - '0' as int
  }

  function Digits(n: nat): string {
    if n < 10 then [DigitChar(n)] else Digits(n / 10) + [DigitChar(n % 10)]
  }

  function Padded(n: nat, width: nat): string
    decreases width
  {
    if width <= 1 then Digits(n) else if n < 10 then Zeros(width - 1) + [DigitChar(n)]
    else Padded(n / 10, width - 1) + [DigitChar(n % 10)]
  }

  function Zeros(k: nat): string {
    if k == 0 then "" else Zeros(k - 1) + "0"
  }

  function Value(s: string): nat
    requires AllDigits(s)
  {
    if s == "" then 0 else Value(s[..|s| - 1]) * 10 + DigitValue(s[|s| - 1])
  }

  /** The ten digits, and that the leftmost one weighs most. */
  lemma DigitsAreDecimal(d: nat, n: nat)
    requires d < 10
    ensures Digits(d) == ["0123456789"[d]] && DigitValue("0123456789"[d]) == d
    ensures n > 0 ==> Digits(10 * n + d) == Digits(n) + ["0123456789"[d]]
    ensures Padded(d, 2) == "0" + ["0123456789"[d]]
  {
    assert "0123456789"[d] == DigitChar(d) by {
      assert "0123456789"[0] == '0' && "0123456789"[1] == '1' && "0123456789"[2] == '2' && "0123456789"[3] == '3';
      assert "0123456789"[4] == '4' && "0123456789"[5] == '5' && "0123456789"[6] == '6' && "0123456789"[7] == '7';
      assert "0123456789"[8] == '8' && "0123456789"[9] == '9';
    }
    assert (10 * n + d) / 10 == n && (10 * n + d) % 10 == d;
    assert Zeros(1) == "0";
  }

  lemma ValueAppend(s: string, c: char)
    requires AllDigits(s) && IsDigit(c)
    ensures AllDigits(s + [c]) && Value(s + [c]) == Value(s) * 10 + DigitValue(c)
  {
    assert (s + [c])[..|s|] == s;
  }

  lemma {:induction false} ValueOfDigits(n: nat)
    ensures AllDigits(Digits(n)) && Value(Digits(n)) == n && |Digits(n)| >= 1
  {
    if n >= 10 {
      ValueOfDigits(n / 10);
      ValueAppend(Digits(n / 10), DigitChar(n % 10));
    } else {
      ValueAppend("", DigitChar(n));
      assert "" + [DigitChar(n)] == Digits(n);
    }
  }

  lemma {:induction false} ValueOfZeros(k: nat)
    ensures AllDigits(Zeros(k)) && Value(Zeros(k)) == 0 && |Zeros(k)| == k
  {
    if k > 0 {
      ValueOfZeros(k - 1);
      ValueAppend(Zeros(k - 1), '0');
    }
  }

  /** Printing at a minimum width and reading back is the identity. */
  lemma {:induction false} ValueOfPadded(n: nat, width: nat)
    ensures AllDigits(Padded(n, width)) && Value(Padded(n, width)) == n && |Padded(n, width)| >= width
    decreases width
  {
    if width <= 1 {
      ValueOfDigits(n);
    } else if n < 10 {
      ValueOfZeros(width - 1);
      ValueAppend(Zeros(width - 1), DigitChar(n));
    } else {
      ValueOfPadded(n / 10, width - 1);
      ValueAppend(Padded(n / 10, width - 1), DigitChar(n % 10));
    }
  }

  function Pow10(k: nat): nat {
    if k == 0 then 1 else 10 * Pow10(k - 1)
  }

  lemma {:induction false} PaddedWidth(n: nat, width: nat)
    requires width >= 1 && n < Pow10(width)
    ensures |Padded(n, width)| == width
    decreases width
  {
    if width == 1 {
      assert Pow10(1) == 10 * Pow10(0);
    } else if n < 10 {
      ValueOfZeros(width - 1);
    } else {
      PaddedWidth(n / 10, width - 1);
    }
  }
}
