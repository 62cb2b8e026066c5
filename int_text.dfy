/**
 * Signed machine integers as the slice parser reads them: Rust's `str::parse::<isize>`
 * on a 64-bit target. Accepted text is an optional `+` or `-` followed by one or more
 * ASCII decimal digits (leading zeros allowed) whose value lies in the range of `isize`.
 */
module IntText {
  import opened Wrappers
  import Text

  const IsizeMin: int := -0x8000_0000_0000_0000
  const IsizeMax: int := 0x7FFF_FFFF_FFFF_FFFF
  const UsizeMax: int := 0xFFFF_FFFF_FFFF_FFFF

  /** Rust's `isize` and `usize` on a 64-bit target. */
  type Isize = x: int | IsizeMin <= x <= IsizeMax
  type Usize = x: int | 0 <= x <= UsizeMax

  predicate IsDigit(c: char) {
    '0' <= c <= '9'
  }

  function DigitValue(c: char): (d: nat)
    requires IsDigit(c)
    ensures d < 10
  {
    c as int - '0' as int
  }

  function DigitChar(d: nat): (c: char)
    requires d < 10
    ensures IsDigit(c) && DigitValue(c) == d
  {
    ('0' as int + d) as char
  }

  /** One or more decimal digits. */
  predicate IsDigits(ds: string) {
    |ds| > 0 && forall i | 0 <= i < |ds| :: IsDigit(ds[i])
  }

  /** The syntax `str::parse::<isize>` accepts, before its range check. */
  predicate IsIntText(s: string) {
    || IsDigits(s)
    || (|s| > 0 && (s[0] == '+' || s[0] == '-') && IsDigits(s[1..]))
  }

  /** The value of a string of decimal digits, accumulated most significant digit first. */
  function DigitsValue(ds: string): nat
    requires forall i | 0 <= i < |ds| :: IsDigit(ds[i])
    decreases |ds|
  {
    if ds == [] then 0 else DigitsValue(ds[..|ds| - 1]) * 10 + DigitValue(ds[|ds| - 1])
  }

  /**
   * `str::parse::<isize>`: `None` for anything that is not integer text, and for integer
   * text whose value does not fit in an `isize`; the value is negative only after a `-`.
   */
  function ParseIsize(s: string): (r: Option<Isize>)
    ensures r.Some? ==> IsIntText(s)
    ensures r.Some? && r.value < 0 ==> s[0] == '-'
  {
    if |s| == 0 then None
    else
      var body := if s[0] == '+' || s[0] == '-' then s[1..] else s;
      if !IsDigits(body) then None
      else
        var v: int := if s[0] == '-' then -(DigitsValue(body) as int) else DigitsValue(body);
        if IsizeMin <= v <= IsizeMax then Some(v) else None
  }

  /** Decimal rendering of a natural number, without leading zeros. */
  function ShowNat(n: nat): (s: string)
    decreases n
  {
    if n < 10 then [DigitChar(n)] else ShowNat(n / 10) + [DigitChar(n % 10)]
  }

  /** Decimal rendering of an integer, as Rust's `to_string` writes it. */
  function ShowInt(i: int): (s: string) {
    if i < 0 then "-" + ShowNat(-i) else ShowNat(i)
  }

  /** The digits of `ShowNat(n)` read back as `n`. */
  lemma {:induction false} ShowNatValue(n: nat)
    ensures IsDigits(ShowNat(n))
    ensures DigitsValue(ShowNat(n)) == n
    decreases n
  {
    if n >= 10 {
      ShowNatValue(n / 10);
      var s := ShowNat(n);
      assert s[..|s| - 1] == ShowNat(n / 10);
    }
  }

  /**
   * Round trip: `str::parse::<isize>` reads the decimal rendering of `i` back as `i`
   * exactly when `i` fits in an `isize`, and rejects it otherwise.
   */
  lemma ParseShowInt(i: int)
    ensures ParseIsize(ShowInt(i)) == if IsizeMin <= i <= IsizeMax then Some(i) else None
  {
    var s := ShowInt(i);
    if i < 0 {
      ShowNatValue(-i);
      assert s[1..] == ShowNat(-i);
    } else {
      ShowNatValue(i);
    }
  }

  /**
   * What `str::parse::<isize>` returns on any integer text: the digits' value, negated
   * after a `-`, when it fits in an `isize`, and `None` otherwise. A leading `+` and
   * leading zeros change nothing.
   */
  lemma ParseIsizeDigits(sign: string, ds: string)
    requires sign == "" || sign == "+" || sign == "-"
    requires IsDigits(ds)
    ensures var v: int := if sign == "-" then -(DigitsValue(ds) as int) else DigitsValue(ds);
            ParseIsize(sign + ds) == if IsizeMin <= v <= IsizeMax then Some(v) else None
  {
    if sign != "" {
      assert (sign + ds)[1..] == ds;
    } else {
      assert sign + ds == ds;
    }
  }

  /** Integer text contains no `:` and has no white space at its ends. */
  lemma IntTextPlain(s: string)
    requires IsIntText(s)
    ensures ':' !in s
    ensures Text.Unpadded(s)
  {
    if !IsDigits(s) {
      forall i | 1 <= i < |s|
        ensures IsDigit(s[i])
      {
        assert s[i] == s[1..][i - 1];
      }
    }
  }

  /** Rendered integers are integer text. */
  lemma ShowIntIsIntText(i: int)
    ensures IsIntText(ShowInt(i))
  {
    var s := ShowInt(i);
    if i < 0 {
      ShowNatValue(-i);
      assert s[1..] == ShowNat(-i);
    } else {
      ShowNatValue(i);
    }
  }
}
