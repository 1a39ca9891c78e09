/** How many candidates may join without endangering the majority (isaac/suffrage_limiter.go). */
module CandidateLimiter {
  import opened Wrappers
  import opened Reals

  datatype Error = InvalidRatio | NoSuffrage

  /** `max < 1` means no limit. */
  datatype Rule = Rule(ratio: real, min: nat, max: nat)

  predicate ValidRatio(ratio: real) {
    0.0 <= ratio <= 1.0
  }

  /** The nodes that may fail in a suffrage of `s`. */
  function Failing(s: nat): nat
    requires s >= 1
  {
    ((s - 1) as real / 3.0).Floor
  }

  function Extra(ratio: real, s: nat): int
    requires s >= 1
  {
    Times(s - Failing(s), ratio).Floor
  }

  /** The size of the majority that is to be retained. */
  function Retained(ratio: real, s: nat): int
    requires s >= 4
  {
    if Failing(s) < 2 then s else s - Failing(s) + Extra(ratio, s)
  }

  /** The size of the suffrage that this majority carries. */
  function Carried(nm: int): int {
    nm + ((nm - 1) as real / 2.0).Floor
  }

  function NewCandidates(ratio: real, suffrage: Result<nat, Error>): Result<nat, Error> {
    if !ValidRatio(ratio) then Err(InvalidRatio)
    else if suffrage.Err? then suffrage
    else if suffrage.value < 4 then Ok(1)
    else
      var s := suffrage.value;
      CarriedAtLeast(ratio, s);
      Ok(UintSub(Carried(Retained(ratio, s)), s))
  }

  function Limit(rule: Rule, suffrage: Result<nat, Error>): Result<nat, Error> {
    var i := NewCandidates(rule.ratio, suffrage);
    if i.Err? then i
    else if rule.min > 0 && i.value < rule.min then Ok(rule.min)
    else if rule.max > 0 && i.value > rule.max then Ok(rule.max)
    else i
  }

  // ---------------------------------------------------------------- arithmetic

  lemma FailingIsThird(s: nat)
    requires s >= 1
    ensures Failing(s) == (s - 1) / 3
  {
    var q, r := (s - 1) / 3, (s - 1) % 3;
    assert (s - 1) as real / 3.0 == q as real + r as real / 3.0;
  }

  lemma CarriedIsHalf(nm: int)
    ensures Carried(nm) == nm + (nm - 1) / 2
  {
    var q, r := (nm - 1) / 2, (nm - 1) % 2;
    assert (nm - 1) as real / 2.0 == q as real + r as real / 2.0;
  }

  lemma ExtraBounds(ratio: real, s: nat)
    requires s >= 1 && ValidRatio(ratio)
    ensures 0 <= Extra(ratio, s)
    ensures Extra(ratio, s) <= Failing(s) <==> Times(s - Failing(s), ratio) < Failing(s) as real + 1.0
  {
    FailingIsThird(s);
    TimesIsNotNegative(s - Failing(s), ratio);
  }

  lemma CarriedAtLeast(ratio: real, s: nat)
    requires s >= 4 && ValidRatio(ratio)
    ensures Carried(Retained(ratio, s)) >= s
  {
    FailingIsThird(s);
    ExtraBounds(ratio, s);
    CarriedIsHalf(Retained(ratio, s));
  }

  // ---------------------------------------------------------------- the bounds

  /** The subtraction does not wrap around, and the retained part is more than two thirds of the carried one. */
  lemma NewCandidatesBound(ratio: real, s: nat)
    requires s >= 4 && ValidRatio(ratio)
    ensures var nm := Retained(ratio, s);
      && NewCandidates(ratio, Ok(s)) == Ok(Carried(nm) - s)
      && 3 * nm > 2 * Carried(nm)
  {
    CarriedAtLeast(ratio, s);
    CarriedIsHalf(Retained(ratio, s));
    FailingIsThird(s);
    ExtraBounds(ratio, s);
  }

  /** The greatest number that is not above `x`. */
  ghost predicate IsFloor(e: int, x: real) {
    e as real <= x < e as real + 1.0
  }

  /**
   * The limit, written out: up to six members the whole suffrage is retained, from seven on all
   * but the third that may fail, and of the rest the ratio again, rounded down. The retained part
   * carries half of what it is more than one.
   */
  lemma LimitIs(ratio: real, s: nat, e: int)
    requires s >= 4 && ValidRatio(ratio)
    requires IsFloor(e, (s - (s - 1) / 3) as real * ratio)
    ensures var nm := if s < 7 then s else s - (s - 1) / 3 + e;
      NewCandidates(ratio, Ok(s)) == Ok(nm + (nm - 1) / 2 - s)
  {
    var f := (s - 1) / 3;
    FailingIsThird(s);
    assert Extra(ratio, s) == e by {
      TimesIsProduct(s - f, ratio);
      assert IsFloor(e, Times(s - f, ratio));
    }
    NewCandidatesBound(ratio, s);
    CarriedIsHalf(Retained(ratio, s));
  }

  /** Below four members one may join; a ratio out of range and an unknown suffrage are errors. */
  lemma LimitOtherwise(ratio: real, suffrage: Result<nat, Error>)
    ensures var r := NewCandidates(ratio, suffrage);
      && (r.Ok? <==> ValidRatio(ratio) && suffrage.Ok?)
      && (!ValidRatio(ratio) ==> r == Err(InvalidRatio))
      && (r.Ok? && suffrage.value < 4 ==> r == Ok(1))
  {
  }

  lemma MonotoneInRatio(r1: real, r2: real, s: nat)
    requires ValidRatio(r1) && ValidRatio(r2) && r1 <= r2
    ensures NewCandidates(r1, Ok(s)).value <= NewCandidates(r2, Ok(s)).value
  {
    if s >= 4 {
      FailingIsThird(s);
      TimesIsProduct(s - Failing(s), r1);
      TimesIsProduct(s - Failing(s), r2);
      MulMono((s - Failing(s)) as real, r1, r2);
      assert Extra(r1, s) <= Extra(r2, s);
      CarriedIsHalf(Retained(r1, s));
      CarriedIsHalf(Retained(r2, s));
      NewCandidatesBound(r1, s);
      NewCandidatesBound(r2, s);
    }
  }

  /** `c` newcomers are less than a third of the suffrage they make with the `s` members. */
  predicate UnderThird(c: nat, s: nat) {
    3 * c < s + c
  }

  /**
   * Newcomers stay under a third exactly if the extra nodes are no more than the failing ones;
   * beyond, "retained" is more than the suffrage has.
   */
  lemma UnderThirdIff(ratio: real, s: nat)
    requires s >= 4 && ValidRatio(ratio)
    ensures UnderThird(NewCandidates(ratio, Ok(s)).value, s) <==>
            (s < 7 || Times(s - Failing(s), ratio) < Failing(s) as real + 1.0)
    ensures UnderThird(NewCandidates(ratio, Ok(s)).value, s) <==> Retained(ratio, s) <= s
  {
    NewCandidatesBound(ratio, s);
    CarriedIsHalf(Retained(ratio, s));
    FailingIsThird(s);
    ExtraBounds(ratio, s);
  }

  /** The full ratio doubles a suffrage of seven. */
  lemma SevenMayDouble()
    ensures NewCandidates(1.0, Ok(7)) == Ok(7) && !UnderThird(7, 7)
  {
    FailingIsThird(7);
    TimesIsProduct(5, 1.0);
    NewCandidatesBound(1.0, 7);
    assert Extra(1.0, 7) == 5;
    CarriedIsHalf(10);
  }

  /** The ratios that are safe for suffrages of every size are those below three sevenths. */
  lemma SafeRatioIff(ratio: real)
    requires ValidRatio(ratio)
    ensures ratio < 3.0 / 7.0 <==>
            forall s: nat :: s >= 4 ==> UnderThird(NewCandidates(ratio, Ok(s)).value, s)
  {
    if ratio < 3.0 / 7.0 {
      forall s: nat | s >= 4
        ensures UnderThird(NewCandidates(ratio, Ok(s)).value, s)
      {
        UnderThirdIff(ratio, s);
        FailingIsThird(s);
        if s >= 7 {
          SmallEnough(ratio, s);
        }
      }
    } else {
      UnderThirdIff(ratio, 9);
      FailingIsThird(9);
      TimesIsProduct(7, ratio);
      assert !UnderThird(NewCandidates(ratio, Ok(9)).value, 9);
    }
  }

  lemma SmallEnough(ratio: real, s: nat)
    requires ValidRatio(ratio) && ratio < 3.0 / 7.0 && s >= 7
    ensures Times(s - Failing(s), ratio) < Failing(s) as real + 1.0
  {
    FailingIsThird(s);
    TimesIsProduct(s - Failing(s), ratio);
    BelowThreeSevenths((s - Failing(s)) as real, Failing(s) as real, ratio);
  }

  lemma BelowThreeSevenths(n: real, f: real, ratio: real)
    requires 0.0 < n <= 2.0 * f + 3.0 && f >= 2.0 && ratio < 3.0 / 7.0
    ensures n * ratio < f + 1.0
  {
    MulStrict(n, ratio, 3.0 / 7.0);
  }

  /**
   * The configured minimum keeps the bound exactly if it is less than half the suffrage, the
   * maximum likewise, and without either the limit is the one above.
   */
  lemma LimitUnderThirdIff(rule: Rule, s: nat)
    requires s >= 4 && ValidRatio(rule.ratio)
    ensures var i := NewCandidates(rule.ratio, Ok(s)).value;
      UnderThird(Limit(rule, Ok(s)).value, s) <==>
        if i < rule.min then 2 * rule.min < s
        else if 0 < rule.max < i then 2 * rule.max < s
        else UnderThird(i, s)
  {
  }

  /** The maximum never breaks the bound, though it may be what keeps it. */
  lemma MaximumKeepsBound(rule: Rule, s: nat)
    requires s >= 4 && ValidRatio(rule.ratio) && rule.min == 0
    requires UnderThird(NewCandidates(rule.ratio, Ok(s)).value, s)
    ensures UnderThird(Limit(rule, Ok(s)).value, s)
  {
  }

  /** A minimum of two lets two nodes join four, where even the full ratio has one. */
  lemma MinimumBreaksBound(ratio: real)
    requires ValidRatio(ratio)
    ensures NewCandidates(ratio, Ok(4)) == Ok(1) && UnderThird(1, 4)
    ensures Limit(Rule(ratio, 2, 0), Ok(4)) == Ok(2) && !UnderThird(2, 4)
  {
    FailingIsThird(4);
    NewCandidatesBound(ratio, 4);
    CarriedIsHalf(4);
  }
}
