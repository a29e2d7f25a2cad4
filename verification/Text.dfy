/** The two string conversions the services rely on. */
module Text {

  function LowerChar(c: char): char {
    if 'A' <= c <= 'Z' then c - 'A' + 'a' else c
  }

  /** Lower-cases the ASCII letters, which is all that occurs in a hexadecimal address. */
  function ToLower(s: string): (r: string)
    ensures |r| == |s|
  {
    seq(|s|, i requires 0 <= i < |s| => LowerChar(s[i]))
  }

  const UPPER := "ABCDEFGHIJKLMNOPQRSTUVWXYZ"
  const LOWER := "abcdefghijklmnopqrstuvwxyz"

  /** A capital becomes the small letter of the same place in the alphabet; nothing else changes. */
  lemma LowerReads(s: string, i: nat, k: nat)
    requires i < |s| && k < 26
    ensures s[i] == UPPER[k] ==> ToLower(s)[i] == LOWER[k]
    ensures s[i] !in UPPER ==> ToLower(s)[i] == s[i]
  {
    InAlphabet(k);
    if 'A' <= s[i] <= 'Z' {
      InAlphabet(s[i] as int - 'A' as int);
    }
  }

  lemma InAlphabet(k: nat)
    requires k < 26
    ensures UPPER[k] == 'A' + k as char && LOWER[k] == 'a' + k as char
  {
  }

  function Digit(d: nat): char
    requires d < 10
  {
    d as char + '0'
  }

  function Decimal(n: nat): string {
    if n < 10 then [Digit(n)] else Decimal(n / 10) + [Digit(n % 10)]
  }

  /** The number that decimal digits denote. */
  function Denoted(digits: string): int {
    if digits == [] then 0
    else 10 * Denoted(digits[..|digits| - 1]) + (digits[|digits| - 1] as int - '0' as int)
  }

  /** Decimal writes a number in digits that denote it, without a leading zero. */
  lemma {:induction false} DecimalDenotes(n: nat)
    ensures Denoted(Decimal(n)) == n && Decimal(n) != []
    ensures forall i :: 0 <= i < |Decimal(n)| ==> '0' <= Decimal(n)[i] <= '9'
    ensures Decimal(n)[0] == '0' ==> n == 0
  {
    if n >= 10 {
      DecimalDenotes(n / 10);
      var rest, last := Decimal(n / 10), [Digit(n % 10)];
      assert (rest + last)[..|rest|] == rest;
    } else {
      assert [Digit(n)][..0] == [];
    }
  }
}
