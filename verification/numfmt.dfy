/** `formatar_numero`: how the headline metric prints a crime index or a
    change. Values above one thousand are shown in thousands with a " K"
    suffix; everything else is printed in plain decimal. The parser below is
    the partner that recovers what a rendered string stands for. */
module NumberFormat {
  import opened Records

  /** What the metric shows for a number: the number itself, or the whole
      thousands it holds. */
  datatype Shown = Plain(value: int) | Thousands(k: int)

  /** The decision of `formatar_numero`: values strictly above 1000 are
      abbreviated. Python's `//` floors, which for the positive values reaching
      that branch is Dafny's `/`. */
  function Abbreviate(n: int): (r: Shown)
    ensures r.Thousands? <==> n > 1000
    ensures r.Plain? ==> r.value == n
    ensures r.Thousands? ==> r.k >= 1 && r.k * 1000 <= n < (r.k + 1) * 1000
  {
    if n > 1000 then Thousands(n / 1000) else Plain(n)
  }

  predicate IsDigit(c: char) { '0' <= c <= '9' }

  predicate AllDigits(s: string) { forall i :: 0 <= i < |s| ==> IsDigit(s[i]) }

  function DigitChar(d: nat): (c: char)
    requires d < 10
    ensures IsDigit(c)
  {
    (('0' as int) + d) as char
  }

  function DigitValue(c: char): (d: nat)
    requires IsDigit(c)
    ensures d < 10
  {
    (c as int) - ('0' as int)
  }

  /** `str(n)` for a natural number: its decimal digits, most significant
      first, with no leading zero. */
  function NatToString(n: nat): (s: string)
    ensures |s| >= 1
    ensures AllDigits(s)
    ensures s[0] == '0' ==> n == 0 && s == "0"
  {
    if n < 10 then [DigitChar(n)]
    else NatToString(n / 10) + [DigitChar(n % 10)]
  }

  /** The form `str` gives an integer: an optional minus sign, then at least
      one digit, with no leading zero except in "0" itself. */
  predicate Canonical(s: string) {
    && |s| >= 1
    && (forall i :: 0 < i < |s| ==> IsDigit(s[i]))
    && (s[0] == '-' || IsDigit(s[0]))
    && (s[0] == '0' ==> s == "0")
    && (s[0] == '-' ==> |s| >= 2 && s[1] != '0')
  }

  /** `str(n)` for any integer: a minus sign before the digits of `-n`. */
  function IntToString(n: int): (s: string)
    ensures Canonical(s)
    ensures s[0] == '-' <==> n < 0
  {
    if n < 0 then "-" + NatToString(-n) else NatToString(n)
  }

  /** The text printed for a `Shown`: `str(v)`, or `f'{k} K'`. */
  function Render(a: Shown): (s: string)
    ensures |s| >= 1
    ensures a.Plain? ==> Canonical(s)
    ensures a.Thousands? ==> |s| >= 3 && s[|s| - 2..] == " K" && Canonical(s[..|s| - 2])
  {
    match a
    case Plain(v) => IntToString(v)
    case Thousands(k) => IntToString(k) + " K"
  }

  /** `formatar_numero(n)`: the text reads back as the abbreviation
      decision taken for `n`. */
  function FormatNumber(n: int): (s: string)
    ensures |s| >= 1
    ensures ParseShown(s) == Some(Abbreviate(n))
    ensures n <= 1000 ==> Canonical(s)
    ensures n > 1000 ==> |s| >= 3 && s[|s| - 2..] == " K" && Canonical(s[..|s| - 2])
  {
    RenderRoundTrip(Abbreviate(n));
    Render(Abbreviate(n))
  }

  /** Value of a run of decimal digits; the empty run stands for 0. */
  function ParseDigits(s: string): (n: nat)
    requires AllDigits(s)
  {
    if |s| == 0 then 0
    else ParseDigits(s[..|s| - 1]) * 10 + DigitValue(s[|s| - 1])
  }

  function ParseDecimal(s: string): Option<int> {
    if |s| >= 2 && s[0] == '-' && AllDigits(s[1..]) then Some(-(ParseDigits(s[1..]) as int))
    else if |s| >= 1 && AllDigits(s) then Some(ParseDigits(s))
    else None
  }

  /** Reads back what `Render` prints. */
  function ParseShown(s: string): Option<Shown> {
    if |s| >= 2 && s[|s| - 2..] == " K" then
      match ParseDecimal(s[..|s| - 2])
      case Some(k) => Some(Thousands(k))
      case None => None
    else
      match ParseDecimal(s)
      case Some(v) => Some(Plain(v))
      case None => None
  }

  lemma {:induction false} NatToStringRoundTrip(n: nat)
    ensures ParseDigits(NatToString(n)) == n
  {
    if n >= 10 {
      NatToStringRoundTrip(n / 10);
      var s := NatToString(n);
      assert s[..|s| - 1] == NatToString(n / 10);
    }
  }

  lemma IntToStringRoundTrip(n: int)
    ensures ParseDecimal(IntToString(n)) == Some(n)
  {
    if n < 0 {
      NatToStringRoundTrip(-n);
      assert IntToString(n)[1..] == NatToString(-n);
    } else {
      NatToStringRoundTrip(n);
    }
  }

  /** Rendering loses nothing the datatype records: parsing the text gives
      back the same `Shown`. */
  lemma RenderRoundTrip(a: Shown)
    ensures ParseShown(Render(a)) == Some(a)
  {
    match a
    case Plain(v) =>
      IntToStringRoundTrip(v);
      var s := IntToString(v);
      if |s| >= 2 {
        assert s[|s| - 1] != 'K';
      }
    case Thousands(k) =>
      IntToStringRoundTrip(k);
      var s := IntToString(k) + " K";
      assert s[..|s| - 2] == IntToString(k);
      assert s[|s| - 2..] == " K";
  }

  /** The " K" suffix appears exactly when the number is above 1000, so 1000
      itself is printed in full; a plain output reads back as the number, an
      abbreviated one as its whole thousands. */
  lemma FormatNumberReadsBack(n: int)
    ensures var s := FormatNumber(n);
      && (|s| >= 2 && s[|s| - 2..] == " K" <==> n > 1000)
      && (n <= 1000 ==> ParseDecimal(s) == Some(n))
      && (n > 1000 ==> ParseDecimal(s[..|s| - 2]) == Some(n / 1000))
  {
    var s := FormatNumber(n);
    RenderRoundTrip(Abbreviate(n));
    if n <= 1000 {
      IntToStringRoundTrip(n);
      if |s| >= 2 {
        assert s[|s| - 1] != 'K';
      }
    } else {
      IntToStringRoundTrip(n / 1000);
      assert s[..|s| - 2] == IntToString(n / 1000);
    }
  }
}
