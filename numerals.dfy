/**
 * Hexadecimal and decimal numerals as the accounting-rule parser reads them
 * (digit by digit, with C's character arithmetic) and as the kernel writes
 * them (`%X`, `%u`).
 */
module Numerals {
  import opened Bytes
  import opened Bits

  /** An uppercase hexadecimal digit; lowercase letters are not digits here. */
  predicate IsHexDigit(b: byte)
  {
    (DIGIT_0 <= b <= DIGIT_9) || (LETTER_A <= b <= LETTER_F)
  }

  predicate IsDecDigit(b: byte)
  {
    DIGIT_0 <= b <= DIGIT_9
  }

  predicate AllHex(t: seq<byte>)
  {
    forall j | 0 <= j < |t| :: IsHexDigit(t[j])
  }

  predicate AllDec(t: seq<byte>)
  {
    forall j | 0 <= j < |t| :: IsDecDigit(t[j])
  }

  /**
   * The value the parser gives one hex character: `c - '0'` for a decimal
   * digit and `c - 'A' + 10` for anything else, so a byte that is not an
   * uppercase hex digit gets an arbitrary value, possibly negative.
   */
  function HexDigit(b: byte): (d: int)
    ensures IsHexDigit(b) ==> 0 <= d < 16
  {
    if DIGIT_0 <= b <= DIGIT_9 then b as int - DIGIT_0 as int
    else b as int - LETTER_A as int + 10
  }

  /** The value the parser gives one decimal character: `c - '0'`. */
  function DecDigit(b: byte): (d: int)
    ensures IsDecDigit(b) <==> 0 <= d < 10
  {
    b as int - DIGIT_0 as int
  }

  /** A column read as hex, most significant digit first, over unbounded integers. */
  function HexValue(t: seq<byte>): int
  {
    if |t| == 0 then 0 else HexValue(t[..|t| - 1]) * 16 + HexDigit(t[|t| - 1])
  }

  /** A column read as decimal, most significant digit first, over unbounded integers. */
  function DecValue(t: seq<byte>): int
  {
    if |t| == 0 then 0 else DecValue(t[..|t| - 1]) * 10 + DecDigit(t[|t| - 1])
  }

  /** A hex numeral of n digits has a value below 16^n. */
  lemma {:induction false} HexValueBound(t: seq<byte>)
    requires AllHex(t)
    ensures 0 <= HexValue(t) < Pow2(4 * |t|)
  {
    if |t| > 0 {
      var u := t[..|t| - 1];
      assert AllHex(u) by {
        forall j | 0 <= j < |u| ensures IsHexDigit(u[j]) {
          assert u[j] == t[j];
        }
      }
      HexValueBound(u);
      Pow2Add(4 * |u|, 4);
      Pow2Values();
    }
  }

  /** A decimal numeral has a non-negative value. */
  lemma {:induction false} DecValueNonNegative(t: seq<byte>)
    requires AllDec(t)
    ensures 0 <= DecValue(t)
  {
    if |t| > 0 {
      var u := t[..|t| - 1];
      assert AllDec(u) by {
        forall j | 0 <= j < |u| ensures IsDecDigit(u[j]) {
          assert u[j] == t[j];
        }
      }
      DecValueNonNegative(u);
    }
  }

  /** The uppercase character `%X` prints for the digit `d`. */
  function HexChar(d: nat): (c: byte)
    requires d < 16
    ensures IsHexDigit(c) && HexDigit(c) == d
  {
    if d < 10 then (DIGIT_0 as int + d) as byte else (LETTER_A as int + d - 10) as byte
  }

  /** Printing the value of an uppercase hex digit gives the digit back. */
  lemma HexCharOfDigit(c: byte)
    requires IsHexDigit(c)
    ensures HexChar(HexDigit(c)) == c
  {
  }

  /** The character `%u` prints for the digit `d`. */
  function DecChar(d: nat): (c: byte)
    requires d < 10
    ensures IsDecDigit(c) && DecDigit(c) == d
  {
    (DIGIT_0 as int + d) as byte
  }

  /** `n` printed with `%X`: uppercase hex without leading zeros. */
  function HexText(n: nat): (t: seq<byte>)
    ensures |t| >= 1 && AllHex(t)
  {
    if n < 16 then [HexChar(n)] else HexText(n / 16) + [HexChar(n % 16)]
  }

  /** `n` printed with `%u`: decimal without leading zeros. */
  function DecText(n: nat): (t: seq<byte>)
    ensures |t| >= 1 && AllDec(t)
  {
    if n < 10 then [DecChar(n)] else DecText(n / 10) + [DecChar(n % 10)]
  }

  /** Reading back a `%X` numeral gives the number printed. */
  lemma {:induction false} HexTextRoundTrip(n: nat)
    ensures HexValue(HexText(n)) == n
  {
    if n >= 16 {
      var t := HexText(n);
      assert t[..|t| - 1] == HexText(n / 16);
      HexTextRoundTrip(n / 16);
    } else {
      assert HexText(n)[..0] == [];
    }
  }

  /** Reading back a `%u` numeral gives the number printed. */
  lemma {:induction false} DecTextRoundTrip(n: nat)
    ensures DecValue(DecText(n)) == n
  {
    if n >= 10 {
      var t := DecText(n);
      assert t[..|t| - 1] == DecText(n / 10);
      DecTextRoundTrip(n / 10);
    } else {
      assert DecText(n)[..0] == [];
    }
  }

  /** Hex and decimal digits are never spaces. */
  lemma DigitsHaveNoSpace(t: seq<byte>)
    requires AllHex(t) || AllDec(t)
    ensures NoSpace(t)
  {
    forall j | 0 <= j < |t| ensures t[j] != SPACE {
      assert IsHexDigit(t[j]) || IsDecDigit(t[j]);
    }
  }
}
