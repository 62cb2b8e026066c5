/**
 * The slice parser: one slice string such as `1:10:2`, `::-1`, `-3:` or `5` into an
 * optional `Range` (`_parse`), and a list of slice strings into the list of ranges
 * (`parse`).
 */
module SliceParser {
  import opened Wrappers
  import opened Text
  import opened IntText
  import opened Ranges

  /** The colon-separated parts of a slice string, each trimmed. There is always at least one. */
  function Parts(slice: string): (parts: seq<string>)
    ensures |parts| == |Split(slice, ':')| >= 1
  {
    var pieces := Split(slice, ':');
    seq(|pieces|, k requires 0 <= k < |pieces| => Trim(pieces[k]))
  }

  /** The `k`-th part, or the empty string when there is none (`next().unwrap_or("")`). */
  function PartOr(parts: seq<string>, k: nat): string {
    if k < |parts| then parts[k] else ""
  }

  /** The text of the start bound. */
  function StartText(slice: string): string {
    PartOr(Parts(slice), 0)
  }

  /** The text of the end bound; empty when the slice has no `:`. */
  function EndText(slice: string): string {
    PartOr(Parts(slice), 1)
  }

  /** The text of the step, if the slice has a third part. Any later part is never looked at. */
  function StepText(slice: string): Option<string> {
    var parts := Parts(slice);
    if |parts| > 2 then Some(parts[2]) else None
  }

  /** Text a bound may be written as: empty, or an integer that fits in an `isize`. */
  predicate IsBoundText(t: string) {
    t == "" || ParseIsize(t).Some?
  }

  /** A step part that is absent or empty means 1; otherwise it must be an integer that fits in an `isize`. */
  predicate IsStepText(t: Option<string>) {
    t.None? || t.value == "" || ParseIsize(t.value).Some?
  }

  /**
   * `_parse`: split on `:`, trim every part, read the start and the end bound with
   * `FromStr for Index` and the step as an `isize` (1 when absent or empty), and build the
   * range with `Range::new`. `ParseSliceSpec` states what comes out.
   */
  function ParseSlice(slice: string): (r: Result<Option<Range>, ParseRangeError>)
  {
    ParseTexts(StartText(slice), EndText(slice), StepText(slice))
  }

  /** The signed step a well-formed step part spells: 1 when it is absent or empty. */
  function StepValue(t: Option<string>): int
    requires IsStepText(t)
  {
    if t.None? || t.value == "" then 1 else ParseIsize(t.value).value
  }

  /**
   * What `_parse` promises about the texts it reads: it fails exactly when one of them is
   * malformed; it yields `None` exactly when the step is written as zero; otherwise the
   * range has the bounds the two bound texts denote and the signed step the step text
   * spells, with a magnitude of at least 1.
   */
  predicate ParsedFrom(r: Result<Option<Range>, ParseRangeError>, startText: string, endText: string, stepText: Option<string>) {
    && (r.Failure? <==> !IsBoundText(startText) || !IsBoundText(endText) || !IsStepText(stepText))
    && (r == Success(None) <==>
          && IsBoundText(startText) && IsBoundText(endText)
          && stepText.Some? && ParseIsize(stepText.value) == Some(0))
    && (r.Success? && r.value.Some? ==>
          && r.value.value.step >= 1
          && IndexFromStr(startText) == Success(r.value.value.start)
          && IndexFromStr(endText) == Success(r.value.value.end)
          && IsStepText(stepText) && SignedStep(r.value.value) == StepValue(stepText))
  }

  /** `_parse` on the start, end and step texts of a slice meets `ParsedFrom`. */
  lemma ParseSliceSpec(slice: string)
    ensures ParsedFrom(ParseSlice(slice), StartText(slice), EndText(slice), StepText(slice))
  {
    ParseTextsSpec(StartText(slice), EndText(slice), StepText(slice));
  }

  /** The body of `_parse` once the three texts are split off: two bounds, then the step, then `Range::new`. */
  function ParseTexts(startText: string, endText: string, stepText: Option<string>): (r: Result<Option<Range>, ParseRangeError>)
  {
    var start :- IndexFromStr(startText);
    var end :- IndexFromStr(endText);
    var step :- match stepText
      case None => Success(1)
      case Some(t) =>
        if t == "" then Success(1)
        else match ParseIsize(t)
          case Some(i) => Success(i)
          case None => Failure(ParseRangeError);
    Success(NewRange(start, end, step))
  }

  /** The body of `_parse` meets `ParsedFrom` on whatever texts it is given. */
  lemma ParseTextsSpec(startText: string, endText: string, stepText: Option<string>)
    ensures ParsedFrom(ParseTexts(startText, endText, stepText), startText, endText, stepText)
  {
  }

  /** A slice string made of separator-free pieces has those pieces, trimmed, as its parts. */
  lemma PartsOfJoin(pieces: seq<string>)
    requires |pieces| >= 1
    requires forall k | 0 <= k < |pieces| :: ':' !in pieces[k]
    ensures |Parts(Join(pieces, ':'))| == |pieces|
    ensures forall k | 0 <= k < |pieces| :: Parts(Join(pieces, ':'))[k] == Trim(pieces[k])
  {
    SplitJoin(pieces, ':');
  }

  /** The texts `_parse` reads from a slice with no `:`. */
  lemma TextsOfOne(a: string)
    requires ':' !in a
    ensures StartText(a) == Trim(a) && EndText(a) == "" && StepText(a) == None
  {
    SplitNoSeparator(a, ':');
  }

  /** The texts `_parse` reads from a slice with one `:`. */
  lemma TextsOfTwo(a: string, b: string)
    requires ':' !in a && ':' !in b
    ensures StartText(a + ":" + b) == Trim(a) && EndText(a + ":" + b) == Trim(b)
    ensures StepText(a + ":" + b) == None
  {
    JoinTwo(a, b, ':');
    PartsOfJoin([a, b]);
  }

  /** The texts `_parse` reads from a slice with two `:`. */
  lemma TextsOfThree(a: string, b: string, c: string)
    requires ':' !in a && ':' !in b && ':' !in c
    ensures StartText(a + ":" + b + ":" + c) == Trim(a) && EndText(a + ":" + b + ":" + c) == Trim(b)
    ensures StepText(a + ":" + b + ":" + c) == Some(Trim(c))
  {
    JoinThree(a, b, c, ':');
    PartsOfJoin([a, b, c]);
  }

  /** A slice with no `:` is a start bound alone: the end is `Empty` and the step is 1, forward. */
  lemma ParseSliceOnePart(s: string)
    requires ':' !in s
    ensures ParseSlice(s) ==
              match IndexFromStr(Trim(s))
              case Success(x) => Success(Some(Range(x, Empty, 1, false)))
              case Failure(e) => Failure(e)
  {
    assert ParseSlice(s) == ParseTexts(Trim(s), "", None) by {
      TextsOfOne(s);
    }
  }

  /** A slice with one `:` has a start and an end bound; its step is 1, forward. */
  lemma ParseSliceTwoParts(a: string, b: string)
    requires ':' !in a && ':' !in b
    ensures ParseSlice(a + ":" + b) ==
              match (IndexFromStr(Trim(a)), IndexFromStr(Trim(b)))
              case (Success(x), Success(y)) => Success(Some(Range(x, y, 1, false)))
              case _ => Failure(ParseRangeError)
  {
    assert ParseSlice(a + ":" + b) == ParseTexts(Trim(a), Trim(b), None) by {
      TextsOfTwo(a, b);
    }
  }

  /** A step part of white space only counts as absent: `a:b:` parses as `a:b`. */
  lemma ParseSliceEmptyStep(a: string, b: string, c: string)
    requires ':' !in a && ':' !in b && ':' !in c
    requires AllWhitespace(c)
    ensures ParseSlice(a + ":" + b + ":" + c) == ParseSlice(a + ":" + b)
  {
    TextsOfThree(a, b, c);
    TextsOfTwo(a, b);
    TrimAllWhitespace(c);
    assert ParseTexts(Trim(a), Trim(b), Some("")) == ParseTexts(Trim(a), Trim(b), None);
  }

  /**
   * A third `:` is not an error: everything from it on is never read, so the slice
   * parses exactly as its first three parts do.
   */
  lemma ParseSliceIgnoresExtraParts(a: string, b: string, c: string, rest: string)
    requires ':' !in a && ':' !in b && ':' !in c
    ensures ParseSlice(a + ":" + b + ":" + c + ":" + rest) == ParseSlice(a + ":" + b + ":" + c)
  {
    var long := a + ":" + b + ":" + c + ":" + rest;
    assert long == a + [':'] + (b + [':'] + (c + [':'] + rest));
    SplitPrefix(c, ':', rest);
    SplitPrefix(b, ':', c + [':'] + rest);
    SplitPrefix(a, ':', b + [':'] + (c + [':'] + rest));
    JoinThree(a, b, c, ':');
    PartsOfJoin([a, b, c]);
  }

  /** The slice string a bound is written as: the empty string for `Empty`, a signed integer otherwise. */
  function FormatIndex(x: Index): string {
    match x
    case Head(n) => ShowInt(n)
    case Tail(n) => ShowInt(-(n as int))
    case Empty => ""
  }

  /** The bounds `Index::from_str` can produce: any `Empty`, a `Head` within `isize`, a non-zero `Tail` within `isize`. */
  predicate Representable(x: Index) {
    match x
    case Head(n) => n <= IsizeMax
    case Tail(n) => 1 <= n <= -IsizeMin
    case Empty => true
  }

  /** A range with parseable bounds and a non-zero step that fits in an `isize`. */
  predicate Parseable(rg: Range) {
    && Representable(rg.start) && Representable(rg.end)
    && rg.step >= 1 && IsizeMin <= SignedStep(rg) <= IsizeMax
  }

  /** The canonical slice string of a range: `start:end:step`, with the signed step. */
  function Format(rg: Range): string {
    FormatIndex(rg.start) + ":" + FormatIndex(rg.end) + ":" + ShowInt(SignedStep(rg))
  }

  lemma FormatIndexParses(x: Index)
    requires Representable(x)
    ensures ':' !in FormatIndex(x) && Unpadded(FormatIndex(x))
    ensures IndexFromStr(FormatIndex(x)) == Success(x)
  {
    match x
    case Head(n) =>
      ShowIntIsIntText(n);
      IntTextPlain(ShowInt(n));
      IndexFromShowInt(n);
    case Tail(n) =>
      ShowIntIsIntText(-(n as int));
      IntTextPlain(ShowInt(-(n as int)));
      IndexFromShowInt(-(n as int));
    case Empty =>
  }

  /** `_parse` on three well-formed texts: the bounds they denote and the step they spell, through `Range::new`. */
  lemma ParseTextsValid(startText: string, endText: string, stepText: string, rg: Range)
    requires IndexFromStr(startText) == Success(rg.start) && IndexFromStr(endText) == Success(rg.end)
    requires rg.step >= 1 && IsizeMin <= SignedStep(rg) <= IsizeMax
    requires stepText != "" && ParseIsize(stepText) == Some(SignedStep(rg))
    ensures ParseTexts(startText, endText, Some(stepText)) == Success(Some(rg))
  {
    NewRangeSignedStep(rg);
  }

  /**
   * Round trip: every range `_parse` can produce is parsed back from its canonical
   * slice string.
   */
  lemma ParseSliceFormat(rg: Range)
    requires Parseable(rg)
    ensures ParseSlice(Format(rg)) == Success(Some(rg))
  {
    var a, b, c := FormatIndex(rg.start), FormatIndex(rg.end), ShowInt(SignedStep(rg));
    assert ':' !in a && Trim(a) == a && IndexFromStr(a) == Success(rg.start) by {
      FormatIndexParses(rg.start);
      TrimUnpadded(a);
    }
    assert ':' !in b && Trim(b) == b && IndexFromStr(b) == Success(rg.end) by {
      FormatIndexParses(rg.end);
      TrimUnpadded(b);
    }
    assert ':' !in c && Trim(c) == c && c != "" && ParseIsize(c) == Some(SignedStep(rg)) by {
      ShowIntIsIntText(SignedStep(rg));
      IntTextPlain(c);
      ParseShowInt(SignedStep(rg));
      TrimUnpadded(c);
    }
    assert ParseSlice(Format(rg)) == ParseTexts(a, b, Some(c)) by {
      TextsOfThree(a, b, c);
    }
    ParseTextsValid(a, b, c, rg);
  }

  /** Every range `_parse` produces is `Parseable`, so `ParseSliceFormat` applies to it. */
  lemma ParseSliceParseable(s: string, rg: Range)
    requires ParseSlice(s) == Success(Some(rg))
    ensures Parseable(rg)
  {
    ParseSliceSpec(s);
  }

  /**
   * Round trip from the text side: the canonical text of whatever `_parse` makes of a
   * slice parses to the same range.
   */
  lemma ParseSliceReparse(s: string)
    requires ParseSlice(s).Success? && ParseSlice(s).value.Some?
    ensures ParseSlice(Format(ParseSlice(s).value.value)) == ParseSlice(s)
  {
    var rg := ParseSlice(s).value.value;
    ParseSliceParseable(s, rg);
    ParseSliceFormat(rg);
  }

  /** `1:10:2`: from 1 up to 10, every second field. */
  lemma ExampleStepTwo()
    ensures ParseSlice("1:10:2") == Success(Some(Range(Head(1), Head(10), 2, false)))
  {
    var rg := Range(Head(1), Head(10), 2, false);
    assert ShowNat(10) == "10";
    assert Format(rg) == "1:10:2";
    ParseSliceFormat(rg);
  }

  /** `::-1`: both bounds left out, the whole line backwards. */
  lemma ExampleReversed()
    ensures ParseSlice("::-1") == Success(Some(Range(Empty, Empty, 1, true)))
  {
    var rg := Range(Empty, Empty, 1, true);
    assert Format(rg) == "::-1";
    ParseSliceFormat(rg);
  }

  /** `-n:` (for instance `-3:`): the last `n` fields; the end is `Empty` and the missing step is 1. */
  lemma ParseSliceFromTail(n: nat)
    requires 1 <= n <= -IsizeMin
    ensures ParseSlice(ShowInt(-(n as int)) + ":") == Success(Some(Range(Tail(n), Empty, 1, false)))
  {
    var a := ShowInt(-(n as int));
    assert ParseSlice(a + ":") == ParseTexts(a, "", None) by {
      assert ':' !in a && Trim(a) == a by {
        ShowIntIsIntText(-(n as int));
        IntTextPlain(a);
        TrimUnpadded(a);
      }
      TextsOfTwo(a, "");
      assert a + ":" + "" == a + ":";
    }
    assert ParseTexts(a, "", None) == Success(Some(Range(Tail(n), Empty, 1, false))) by {
      IndexFromShowInt(-(n as int));
    }
  }

  /** `5`: a start bound alone; the end is `Empty`. */
  lemma ExampleStartOnly()
    ensures ParseSlice("5") == Success(Some(Range(Head(5), Empty, 1, false)))
  {
    assert IndexFromStr("5") == Success(Head(5)) by {
      assert ShowInt(5) == "5";
      IndexFromShowInt(5);
    }
    TrimUnpadded("5");
    ParseSliceOnePart("5");
  }

  /** The empty slice: both bounds `Empty`, step 1. */
  lemma ExampleEmpty()
    ensures ParseSlice("") == Success(Some(Range(Empty, Empty, 1, false)))
  {
    ParseSliceOnePart("");
  }

  /** `1:2:0`: a zero step is dropped, not reported. */
  lemma ExampleZeroStep()
    ensures ParseSlice("1:2:0") == Success(None)
  {
    assert "1:2:0" == "1" + ":" + "2" + ":" + "0";
    assert IndexFromStr("1") == Success(Head(1)) && IndexFromStr("2") == Success(Head(2)) by {
      assert ShowInt(1) == "1" && ShowInt(2) == "2";
      IndexFromShowInt(1);
      IndexFromShowInt(2);
    }
    assert ParseIsize("0") == Some(0) by {
      assert ShowInt(0) == "0";
      ParseShowInt(0);
    }
    TrimUnpadded("1");
    TrimUnpadded("2");
    TrimUnpadded("0");
    TextsOfThree("1", "2", "0");
  }

  /** `a:1`: a start bound that is not a number is an error. */
  lemma ExampleMalformed()
    ensures ParseSlice("a:1").Failure?
  {
    assert ParseSlice("a:1") == ParseTexts("a", "1", None) by {
      assert "a:1" == "a" + ":" + "1";
      TrimUnpadded("a");
      TrimUnpadded("1");
      TextsOfTwo("a", "1");
    }
    assert IndexFromStr("a").Failure?;
  }

  /** The panic that `parse` raises on the first slice `_parse` rejects; its message names that slice. */
  datatype Panic = CouldNotParse(slice: string)

  /** What `_parse` makes of one slice string. */
  type Outcome = Result<Option<Range>, ParseRangeError>

  /** `f` applied to each element, in order. */
  function Map<A, B>(f: A -> B, xs: seq<A>): (ys: seq<B>)
    ensures |ys| == |xs|
    decreases |xs|
  {
    if xs == [] then [] else [f(xs[0])] + Map(f, xs[1..])
  }

  lemma {:induction false} MapAt<A, B>(f: A -> B, xs: seq<A>, i: nat)
    requires i < |xs|
    ensures Map(f, xs)[i] == f(xs[i])
    decreases |xs|
  {
    if i > 0 {
      MapAt(f, xs[1..], i - 1);
    }
  }

  lemma {:induction false} MapAppend<A, B>(f: A -> B, a: seq<A>, b: seq<A>)
    ensures Map(f, a + b) == Map(f, a) + Map(f, b)
    decreases |a|
  {
    if a == [] {
      assert a + b == b;
    } else {
      assert (a + b)[1..] == a[1..] + b;
      MapAppend(f, a[1..], b);
    }
  }

  /** `_parse` applied to each slice, in order. */
  function Outcomes(slices: seq<string>): (os: seq<Outcome>)
    ensures |os| == |slices|
  {
    Map(ParseSlice, slices)
  }

  lemma OutcomesAt(slices: seq<string>, i: nat)
    requires i < |slices|
    ensures Outcomes(slices)[i] == ParseSlice(slices[i])
  {
    MapAt(ParseSlice, slices, i);
  }

  lemma OutcomesAppend(a: seq<string>, b: seq<string>)
    ensures Outcomes(a + b) == Outcomes(a) + Outcomes(b)
  {
    MapAppend(ParseSlice, a, b);
  }

  /** No outcome is a failure. */
  predicate AllAccepted(os: seq<Outcome>) {
    forall i | 0 <= i < |os| :: os[i].Success?
  }

  /** What one outcome contributes to the list: its range, or nothing. */
  function Contribution(o: Outcome): seq<Range> {
    match o
    case Success(Some(rg)) => [rg]
    case _ => []
  }

  /** The ranges of a list of outcomes, in order, without the zero-step ones. */
  function Kept(os: seq<Outcome>): seq<Range>
    decreases |os|
  {
    if os == [] then [] else Contribution(os[0]) + Kept(os[1..])
  }

  /** The number of outcomes that are a zero step, `Ok(None)`. */
  function Dropped(os: seq<Outcome>): nat
    decreases |os|
  {
    if os == [] then 0 else (if os[0] == Success(None) then 1 else 0) + Dropped(os[1..])
  }

  /**
   * `parse`: the slices are parsed in order and the ranges pushed onto a list, skipping
   * the zero-step ones; the first rejected slice aborts the whole run with a panic that
   * names it. So it succeeds exactly when every slice is accepted, and then yields the
   * kept ranges in input order.
   */
  method ParseAll(slices: seq<string>) returns (r: Result<seq<Range>, Panic>)
    ensures r.Success? <==> AllAccepted(Outcomes(slices))
    ensures r.Success? ==> r.value == Kept(Outcomes(slices))
    ensures r.Failure? ==>
              exists k | 0 <= k < |slices| ::
                && ParseSlice(slices[k]).Failure?
                && AllAccepted(Outcomes(slices[..k]))
                && r.error == CouldNotParse(slices[k])
  {
    var ranges: seq<Range> := [];
    for i := 0 to |slices|
      invariant AllAccepted(Outcomes(slices[..i]))
      invariant ranges == Kept(Outcomes(slices[..i]))
    {
      var outcome := ParseSlice(slices[i]);
      if outcome.Failure? {
        OutcomesAt(slices, i);
        return Failure(CouldNotParse(slices[i]));
      }
      OutcomesStep(slices, i);
      if outcome.value.Some? {
        ranges := ranges + [outcome.value.value];
      }
    }
    assert slices[..|slices|] == slices;
    return Success(ranges);
  }

  /** One more slice adds its outcome at the end, and its range, if any, after the kept ones. */
  lemma OutcomesStep(slices: seq<string>, i: nat)
    requires i < |slices|
    ensures Outcomes(slices[..i + 1]) == Outcomes(slices[..i]) + [ParseSlice(slices[i])]
    ensures Kept(Outcomes(slices[..i + 1])) == Kept(Outcomes(slices[..i])) + Contribution(ParseSlice(slices[i]))
  {
    assert slices[..i + 1] == slices[..i] + [slices[i]];
    OutcomesAppend(slices[..i], [slices[i]]);
    KeptAppend(Outcomes(slices[..i]), [ParseSlice(slices[i])]);
  }

  /** The kept ranges of a concatenation: those of the first list, then those of the second. */
  lemma {:induction false} KeptAppend(a: seq<Outcome>, b: seq<Outcome>)
    ensures Kept(a + b) == Kept(a) + Kept(b)
    decreases |a|
  {
    if a == [] {
      assert a + b == b;
    } else {
      assert (a + b)[1..] == a[1..] + b;
      KeptAppend(a[1..], b);
    }
  }

  /** One range per accepted slice except the zero-step ones: never more ranges than slices. */
  lemma {:induction false} KeptLength(os: seq<Outcome>)
    requires AllAccepted(os)
    ensures |Kept(os)| == |os| - Dropped(os)
    ensures |Kept(os)| <= |os|
    decreases |os|
  {
    if os != [] {
      KeptLength(os[1..]);
    }
  }

  /** Every kept range is the range of some outcome. */
  lemma {:induction false} KeptFrom(os: seq<Outcome>, k: nat)
    requires k < |Kept(os)|
    ensures exists i | 0 <= i < |os| :: os[i] == Success(Some(Kept(os)[k]))
    decreases |os|
  {
    if Contribution(os[0]) == [] {
      KeptFrom(os[1..], k);
      var i :| 0 <= i < |os[1..]| && os[1..][i] == Success(Some(Kept(os[1..])[k]));
      assert os[i + 1] == os[1..][i];
    } else if k > 0 {
      KeptFrom(os[1..], k - 1);
      var i :| 0 <= i < |os[1..]| && os[1..][i] == Success(Some(Kept(os[1..])[k - 1]));
      assert os[i + 1] == os[1..][i];
    } else {
      assert os[0] == Success(Some(Kept(os)[0]));
    }
  }

  /** Every range `parse` returns has step at least 1. */
  lemma KeptSteps(slices: seq<string>)
    ensures forall k | 0 <= k < |Kept(Outcomes(slices))| :: Kept(Outcomes(slices))[k].step >= 1
  {
    var os := Outcomes(slices);
    forall k | 0 <= k < |Kept(os)|
      ensures Kept(os)[k].step >= 1
    {
      KeptFrom(os, k);
      var i :| 0 <= i < |os| && os[i] == Success(Some(Kept(os)[k]));
      OutcomesAt(slices, i);
      ParseSliceSpec(slices[i]);
    }
  }

  /** With no zero step among them, the `k`-th kept range is the `k`-th outcome's range. */
  lemma {:induction false} KeptPointwise(os: seq<Outcome>)
    requires AllAccepted(os) && Dropped(os) == 0
    ensures |Kept(os)| == |os|
    ensures forall k | 0 <= k < |os| :: os[k] == Success(Some(Kept(os)[k]))
    decreases |os|
  {
    if os != [] {
      KeptPointwise(os[1..]);
      forall k | 1 <= k < |os|
        ensures os[k] == Success(Some(Kept(os)[k]))
      {
        assert os[k] == os[1..][k - 1];
      }
    }
  }
}
