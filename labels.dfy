/** Face labels: "face_" followed by a decimal number, the name a newly registered face receives. */
module Labels {

  /** The decimal digit for 0 <= d < 10. */
  function DigitChar(d: nat): (ch: char)
    requires d < 10
    ensures '0' <= ch <= '9'
    ensures ch as int - '0' as int == d
  {
    ['0', '1', '2', '3', '4', '5', '6', '7', '8', '9'][d]
  }

  /** Python's `str(n)` for a natural number: its decimal digits, most significant first, no leading zero. */
  function Decimal(n: nat): (s: string)
    ensures 1 <= |s|
    ensures forall i :: 0 <= i < |s| ==> '0' <= s[i] <= '9'
    ensures |s| == 1 <==> n < 10
    ensures s[|s| - 1] == DigitChar(n % 10)
    ensures s[0] == '0' <==> n == 0
  {
    if n < 10 then [DigitChar(n)] else Decimal(n / 10) + [DigitChar(n % 10)]
  }

  /** Two numbers with the same decimal text are the same number. */
  lemma {:induction false} DecimalInjective(m: nat, n: nat)
    requires Decimal(m) == Decimal(n)
    ensures m == n
  {
    var s := Decimal(m);
    assert DigitChar(m % 10) == s[|s| - 1] == DigitChar(n % 10);
    if 10 <= m {
      assert 10 <= n;
      assert Decimal(m) == Decimal(m / 10) + [DigitChar(m % 10)];
      assert Decimal(n) == Decimal(n / 10) + [DigitChar(n % 10)];
      assert Decimal(m / 10) == s[..|s| - 1] == Decimal(n / 10);
      DecimalInjective(m / 10, n / 10);
    }
  }

  /** The label given to the n-th registered face (1-based): "face_" followed by n in decimal. */
  function Label(n: nat): string {
    "face_" + Decimal(n)
  }

  /** A label is "face_" followed by the number's decimal digits, of which there is at least one. */
  lemma LabelForm(n: nat)
    ensures |Label(n)| > 5 && Label(n)[..5] == "face_" && Label(n)[5..] == Decimal(n)
  {
  }

  /** Distinct registry positions get distinct labels. */
  lemma LabelInjective(m: nat, n: nat)
    requires Label(m) == Label(n)
    ensures m == n
  {
    assert Decimal(m) == Label(m)[5..] == Label(n)[5..] == Decimal(n);
    DecimalInjective(m, n);
  }
}
