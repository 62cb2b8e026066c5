/**
 * The values a slice expression parses into: relative bounds (`Index`) and a `Range`
 * made of two bounds, a step magnitude and a direction flag.
 */
module Ranges {
  import opened Wrappers
  import opened IntText

  /** The failure value of every parse step: a unit error whose only message is "Invalid range". */
  datatype ParseRangeError = ParseRangeError

  /**
   * A bound before it is resolved against a field count: `Head(n)` counts from the
   * start, `Tail(n)` counts back from the end, `Empty` is a bound that was left out.
   */
  datatype Index = Head(offset: Usize) | Tail(offset: Usize) | Empty

  /**
   * A parsed slice: `step` is the magnitude of the signed step and `reversed` records
   * that it was negative. A range built by `NewRange` never has step 0.
   */
  datatype Range = Range(start: Index, end: Index, step: Usize, reversed: bool) {

    /** `Range::is_reversed`. */
    predicate IsReversed() {
      reversed
    }

    /**
     * `PartialEq::eq` for `Range`: two ranges with step 0 are equal whatever their
     * other fields; otherwise all four fields must agree.
     */
    predicate Equals(other: Range) {
      || (step == 0 && other.step == 0)
      || (start == other.start && end == other.end && step == other.step && reversed == other.reversed)
    }
  }

  /** The signed integer a non-empty bound was written as: `n` for `Head(n)`, `-n` for `Tail(n)`. */
  function SignedOffset(x: Index): int
    requires !x.Empty?
  {
    if x.Head? then x.offset else -(x.offset as int)
  }

  /** The signed step a range was written with. */
  function SignedStep(rg: Range): int {
    if rg.reversed then -(rg.step as int) else rg.step
  }

  /**
   * `Index::new`: a non-negative integer counts from the head, a negative one from the
   * tail. The result is never `Empty` nor `Tail(0)`, and it reads back as `i`.
   */
  function NewIndex(i: Isize): (x: Index)
    ensures !x.Empty? && x != Tail(0)
    ensures SignedOffset(x) == i
  {
    if i >= 0 then Head(i) else Tail(-(i as int))
  }

  /** `Index::new` is the inverse of `SignedOffset` on every bound it can produce. */
  lemma NewIndexSignedOffset(x: Index)
    requires !x.Empty? && x != Tail(0)
    requires IsizeMin <= SignedOffset(x) <= IsizeMax
    ensures NewIndex(SignedOffset(x)) == x
  {
  }

  /**
   * `FromStr for Index`: the empty string is `Empty`; integer text that fits in an
   * `isize` becomes `Index::new` of its value; anything else is `ParseRangeError`.
   */
  function IndexFromStr(s: string): (r: Result<Index, ParseRangeError>)
    ensures r == Success(Empty) <==> s == ""
    ensures r.Failure? <==> s != "" && ParseIsize(s).None?
    ensures r.Success? && s != "" ==> SignedOffset(r.value) == ParseIsize(s).value
    ensures r != Success(Tail(0))
  {
    if s == "" then Success(Empty)
    else
      match ParseIsize(s)
      case Some(i) => Success(NewIndex(i))
      case None => Failure(ParseRangeError)
  }

  /**
   * Decimal text of a non-negative `i` is read as `Head(i)`, that of a negative `-i`
   * as `Tail(i)`, as long as the value fits in an `isize`.
   */
  lemma IndexFromShowInt(i: int)
    requires IsizeMin <= i <= IsizeMax
    ensures i >= 0 ==> IndexFromStr(ShowInt(i)) == Success(Head(i))
    ensures i < 0 ==> IndexFromStr(ShowInt(i)) == Success(Tail(-i))
  {
    ParseShowInt(i);
    ShowIntIsIntText(i);
  }

  /** `-0` is zero, which counts from the head: it is `Head(0)`, not `Tail(0)`. */
  lemma IndexFromMinusZero()
    ensures IndexFromStr("-0") == Success(Head(0))
  {
    assert "-0"[1..] == "0";
    assert DigitsValue("0") == 0 by {
      assert "0"[..0] == [];
    }
  }

  /**
   * `Range::new`: `None` exactly for step 0. Otherwise the bounds are kept, the step
   * magnitude is at least 1 and the step reads back, sign included, as `step`.
   */
  function NewRange(start: Index, end: Index, step: Isize): (r: Option<Range>)
    ensures r.None? <==> step == 0
    ensures r.Some? ==> r.value.start == start && r.value.end == end
    ensures r.Some? ==> r.value.step >= 1 && SignedStep(r.value) == step
  {
    if step == 0 then None
    else if step > 0 then Some(Range(start, end, step, false))
    else Some(Range(start, end, -(step as int), true))
  }

  /** A range built by `Range::new` is reversed exactly when its step was negative. */
  lemma NewRangeIsReversed(start: Index, end: Index, step: Isize)
    requires step != 0
    ensures NewRange(start, end, step).value.IsReversed() <==> step < 0
  {
  }

  /** Every range with step at least 1 is what `Range::new` builds from its fields and signed step. */
  lemma NewRangeSignedStep(rg: Range)
    requires rg.step >= 1 && IsizeMin <= SignedStep(rg) <= IsizeMax
    ensures NewRange(rg.start, rg.end, SignedStep(rg)) == Some(rg)
  {
  }

  /** Range equality is reflexive. */
  lemma EqualsReflexive(a: Range)
    ensures a.Equals(a)
  {
  }

  /** Range equality is symmetric. */
  lemma EqualsSymmetric(a: Range, b: Range)
    ensures a.Equals(b) <==> b.Equals(a)
  {
  }

  /** Range equality is transitive, so it is an equivalence, as Rust's `Eq` promises. */
  lemma EqualsTransitive(a: Range, b: Range, c: Range)
    requires a.Equals(b) && b.Equals(c)
    ensures a.Equals(c)
  {
  }

  /** Any two step-0 ranges are equal, whatever their bounds and direction. */
  lemma EqualsZeroStep(a: Range, b: Range)
    requires a.step == 0 && b.step == 0
    ensures a.Equals(b)
  {
  }

  /**
   * Once either side has a non-zero step, range equality is plain structural equality;
   * in particular on ranges built by `Range::new`.
   */
  lemma EqualsStructural(a: Range, b: Range)
    requires a.step != 0 || b.step != 0
    ensures a.Equals(b) <==> a == b
  {
  }
}
