/**
 * The timer label of the puzzle board: a count of whole seconds shown as
 * "MM:SS" (minutes padded to at least two digits, seconds to exactly two).
 */
module TimeFormat {
  import opened Wrappers

  predicate IsDigit(c: char) {
    '0' <= c <= '9'
  }

  predicate AllDigits(s: string) {
    forall i :: 0 <= i < |s| ==> IsDigit(s[i])
  }

  function DigitChar(d: nat): (c: char)
    requires d < 10
    ensures IsDigit(c) && DigitValue(c) == d
  {
    "0123456789"[d]
  }

  function DigitValue(c: char): nat {
    if IsDigit(c) then (c as int - '0' as int) as nat else 0
  }

  /** The number a string of decimal digits denotes, most significant digit first. */
  function Value(s: string): nat {
    if s == [] then 0 else 10 * Value(s[..|s| - 1]) + DigitValue(s[|s| - 1])
  }

  /** The decimal digits of a non-negative integer, without leading zeros. */
  function Decimal(n: nat): (r: string)
    ensures |r| >= 1 && AllDigits(r)
    ensures r[0] == '0' ==> n == 0
    decreases n
  {
    if n < 10 then [DigitChar(n)] else Decimal(n / 10) + [DigitChar(n % 10)]
  }

  /** Prefixes the fill character until the string is at least width long. */
  function PadStart(s: string, width: nat, fill: char): (r: string)
    ensures |r| == if |s| >= width then |s| else width
    ensures r[|r| - |s|..] == s
    ensures forall i :: 0 <= i < |r| - |s| ==> r[i] == fill
  {
    if |s| >= width then s else seq(width - |s|, _ => fill) + s
  }

  /** The timer label: whole minutes, a colon, then whole seconds of the current minute. */
  function FormatTime(t: nat): (r: string)
    ensures |r| >= 5 && r[|r| - 3] == ':'
    ensures AllDigits(r[..|r| - 3]) && AllDigits(r[|r| - 2..])
  {
    DecimalBelowHundred(t % 60);
    PadValue(Decimal(t / 60));
    PadValue(Decimal(t % 60));
    PadStart(Decimal(t / 60), 2, '0') + ":" + PadStart(Decimal(t % 60), 2, '0')
  }

  /** Reads a label back: the last three characters are ':' and the two seconds digits. */
  function ParseTime(s: string): Option<nat> {
    if |s| >= 4 && s[|s| - 3] == ':' && AllDigits(s[..|s| - 3]) && AllDigits(s[|s| - 2..])
       && Value(s[|s| - 2..]) < 60
    then Some(60 * Value(s[..|s| - 3]) + Value(s[|s| - 2..]))
    else None
  }

  lemma {:induction false} DecimalValue(n: nat)
    ensures Value(Decimal(n)) == n
    decreases n
  {
    if n >= 10 {
      var s := Decimal(n);
      assert s[..|s| - 1] == Decimal(n / 10);
      DecimalValue(n / 10);
    }
  }

  lemma DecimalBelowHundred(n: nat)
    requires n < 100
    ensures |Decimal(n)| <= 2
  {
    if n >= 10 {
      assert |Decimal(n / 10)| == 1;
    }
  }

  lemma {:induction false} ZerosValue(k: nat)
    ensures Value(seq(k, _ => '0')) == 0
  {
    if k > 0 {
      assert seq(k, _ => '0')[..k - 1] == seq(k - 1, _ => '0');
      ZerosValue(k - 1);
    }
  }

  lemma {:induction false} LeadingZerosValue(k: nat, s: string)
    ensures Value(seq(k, _ => '0') + s) == Value(s)
    decreases |s|
  {
    var z := seq(k, _ => '0');
    if s == [] {
      assert z + s == z;
      ZerosValue(k);
    } else {
      var w := z + s;
      assert w[..|w| - 1] == z + s[..|s| - 1];
      assert w[|w| - 1] == s[|s| - 1];
      LeadingZerosValue(k, s[..|s| - 1]);
    }
  }

  /** Padding with '0' keeps the digits and their value. */
  lemma PadValue(s: string)
    requires AllDigits(s)
    ensures AllDigits(PadStart(s, 2, '0'))
    ensures Value(PadStart(s, 2, '0')) == Value(s)
    ensures |PadStart(s, 2, '0')| == if |s| >= 2 then |s| else 2
  {
    if |s| < 2 {
      LeadingZerosValue(2 - |s|, s);
    }
  }

  /**
   * The label splits at its third-last character into a minutes field of at least
   * two digits whose value is t div 60 and a seconds field of exactly two digits
   * whose value is t mod 60, so minutes * 60 + seconds == t.
   */
  lemma FormatTimeFields(t: nat)
    ensures var r := FormatTime(t);
      && |r| >= 5
      && r[|r| - 3] == ':'
      && AllDigits(r[..|r| - 3]) && |r[..|r| - 3]| >= 2
      && AllDigits(r[|r| - 2..])
      && Value(r[..|r| - 3]) == t / 60
      && Value(r[|r| - 2..]) == t % 60 < 60
      && 60 * Value(r[..|r| - 3]) + Value(r[|r| - 2..]) == t
  {
    var m := PadStart(Decimal(t / 60), 2, '0');
    var s := PadStart(Decimal(t % 60), 2, '0');
    DecimalValue(t / 60);
    DecimalValue(t % 60);
    PadValue(Decimal(t / 60));
    PadValue(Decimal(t % 60));
    DecimalBelowHundred(t % 60);
    var r := FormatTime(t);
    assert r == m + ":" + s;
    assert r[..|r| - 3] == m;
    assert r[|r| - 2..] == s;
  }

  /** Reading a label back gives the number of seconds it was made from. */
  lemma FormatTimeRoundTrip(t: nat)
    ensures ParseTime(FormatTime(t)) == Some(t)
  {
    FormatTimeFields(t);
  }

  /** Distinct times never share a label. */
  lemma FormatTimeInjective(a: nat, b: nat)
    requires FormatTime(a) == FormatTime(b)
    ensures a == b
  {
    FormatTimeRoundTrip(a);
    FormatTimeRoundTrip(b);
  }
}
