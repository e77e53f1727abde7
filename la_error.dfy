/** Decimal text of natural numbers: the `{n}` formatting of a `usize` and the `int(...)`
    of a run of ASCII digits. */
module Decimal {

  predicate IsDigit(c: char) {
    '0' <= c <= '9'
  }

  predicate AllDigits(s: string) {
    forall i | 0 <= i < |s| :: IsDigit(s[i])
  }

  function DigitChar(d: nat): (c: char)
    requires d < 10
    ensures IsDigit(c) && c as int - '0' as int == d
  {
    ('0' as int + d) as char
  }

  function DigitValue(c: char): (d: nat)
    requires IsDigit(c)
    ensures d < 10
  {
    c as int - '0' as int
  }

  /** The shortest decimal spelling of n ("0" for zero). */
  function NatToString(n: nat): (s: string)
    ensures |s| >= 1 && AllDigits(s)
    ensures n > 0 ==> s[0] != '0'
    decreases n
  {
    if n < 10 then [DigitChar(n)] else NatToString(n / 10) + [DigitChar(n % 10)]
  }

  /** The value of a run of decimal digits, most significant first; leading zeros allowed. */
  function DigitsToNat(s: string): nat
    requires AllDigits(s)
    decreases |s|
  {
    if s == [] then 0 else DigitsToNat(s[..|s| - 1]) * 10 + DigitValue(s[|s| - 1])
  }

  /** Reading back the decimal spelling of n gives n. */
  lemma {:induction false} DigitsOfNat(n: nat)
    ensures DigitsToNat(NatToString(n)) == n
    decreases n
  {
    var s := NatToString(n);
    if n < 10 {
      assert s[..|s| - 1] == [];
    } else {
      DigitsOfNat(n / 10);
      assert s[..|s| - 1] == NatToString(n / 10);
    }
  }

  /** Different numbers are spelled differently. */
  lemma NatToStringInjective(m: nat, n: nat)
    requires NatToString(m) == NatToString(n)
    ensures m == n
  {
    DigitsOfNat(m);
    DigitsOfNat(n);
  }
}

/** The error type shared by both factorizations, its `Display` text, and the default
    pivot tolerance (src/lib.rs). */
module LaErrors {
  import opened Decimal

  /** `LaError`: the two failure kinds, each naming the zero-based column (step) where it
      was detected. `==` on this datatype is the derived `PartialEq`: the same variant
      with the same column. */
  datatype LaError = Singular(pivotCol: nat) | NonFinite(pivotCol: nat)

  /** `Result<T, LaError>`. */
  datatype Result<T> = Ok(value: T) | Err(error: LaError)

  datatype Option<T> = None | Some(value: T)

  /** `DEFAULT_PIVOT_TOL` = 1e-12. */
  const DefaultPivotTol: real := 0.000000000001

  // Written as short pieces so that the verifier can read single characters of them.
  const SingularPrefix: string := "singular " + "matrix at " + "pivot column "
  const NonFinitePrefix: string := "non-finite " + "value encountered " + "at pivot column "

  /** The `Display` text of an error: a fixed phrase per variant followed by the column
      in decimal. */
  function Display(e: LaError): (s: string)
    ensures e.Singular? ==>
              |s| > |SingularPrefix| && s[..|SingularPrefix|] == SingularPrefix &&
              s[|SingularPrefix|..] == NatToString(e.pivotCol)
    ensures e.NonFinite? ==>
              |s| > |NonFinitePrefix| && s[..|NonFinitePrefix|] == NonFinitePrefix &&
              s[|NonFinitePrefix|..] == NatToString(e.pivotCol)
  {
    match e
    case Singular(c) => SingularPrefix + NatToString(c)
    case NonFinite(c) => NonFinitePrefix + NatToString(c)
  }

  /** Recovers the error from its text; the partner of `Display`. */
  function ParseDisplay(s: string): Option<LaError> {
    if |s| > |SingularPrefix| && s[..|SingularPrefix|] == SingularPrefix && AllDigits(s[|SingularPrefix|..]) then
      Some(Singular(DigitsToNat(s[|SingularPrefix|..])))
    else if |s| > |NonFinitePrefix| && s[..|NonFinitePrefix|] == NonFinitePrefix && AllDigits(s[|NonFinitePrefix|..]) then
      Some(NonFinite(DigitsToNat(s[|NonFinitePrefix|..])))
    else
      None
  }

  /** Parsing the displayed text gives back the same error: `Display` loses nothing. */
  lemma DisplayRoundTrip(e: LaError)
    ensures ParseDisplay(Display(e)) == Some(e)
  {
    var s := Display(e);
    DigitsOfNat(e.pivotCol);
    if e.NonFinite? {
      assert NonFinitePrefix[0] == 'n' && SingularPrefix[0] == 's';
      assert s[0] == NonFinitePrefix[0];
      assert s[..|SingularPrefix|] != SingularPrefix;
    }
  }

  /** Two errors display the same text exactly when they are equal. */
  lemma DisplayInjective(e1: LaError, e2: LaError)
    ensures Display(e1) == Display(e2) <==> e1 == e2
  {
    if Display(e1) == Display(e2) {
      DisplayRoundTrip(e1);
      DisplayRoundTrip(e2);
    }
  }

  /** The default tolerance is positive, so it meets the `tol >= 0` both engines assume. */
  lemma DefaultPivotTolNonNegative()
    ensures 0.0 < DefaultPivotTol < 1.0
  {
  }
}
