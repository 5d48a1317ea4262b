/** `RangeBounds`, the interval carried by a range-bounded integer type
    (`(Int lo .. hi)`, `(Int lo ..)`) in the type checker. An absent lower
    end stands for minus infinity and an absent upper end for plus infinity.
    The checker joins the ranges of branches with `Union`, narrows with
    `Intersect`, tests assignability with `IsSubrangeOf`, infers the range
    of `(+ x y)` and `(- x y)` with `Add` and `Sub`, and refines a variable
    inside the branches of `(if (> x k) ...)` with `RefineGt` and
    `RefineNotGt`. All operations are total and return new values. */
module Ranges {
  import opened Wrappers

  datatype RangeBounds = RangeBounds(minVal: Option<int>, maxVal: Option<int>)

  /** The range [lo, hi]. */
  function Closed(lo: int, hi: int): RangeBounds
  {
    RangeBounds(Some(lo), Some(hi))
  }

  /** The integers a range admits. */
  predicate Contains(r: RangeBounds, x: int)
  {
    (r.minVal.None? || r.minVal.value <= x) &&
    (r.maxVal.None? || x <= r.maxVal.value)
  }

  /** A range whose finite ends satisfy min <= max. `Intersect` can produce
      a range that is not; the checker reads it as an unreachable branch. */
  predicate NonEmpty(r: RangeBounds)
  {
    r.minVal.None? || r.maxVal.None? || r.minVal.value <= r.maxVal.value
  }

  /** Lower end x is at or below lower end y (an absent end is minus infinity). */
  predicate LowerLe(x: Option<int>, y: Option<int>)
  {
    x.None? || (y.Some? && x.value <= y.value)
  }

  /** Upper end x is at or below upper end y (an absent end is plus infinity). */
  predicate UpperLe(x: Option<int>, y: Option<int>)
  {
    y.None? || (x.Some? && x.value <= y.value)
  }

  function MinLower(x: Option<int>, y: Option<int>): (r: Option<int>)
    ensures LowerLe(r, x) && LowerLe(r, y) && (r == x || r == y)
  {
    if x.None? || y.None? then None
    else Some(if x.value <= y.value then x.value else y.value)
  }

  function MaxLower(x: Option<int>, y: Option<int>): (r: Option<int>)
    ensures LowerLe(x, r) && LowerLe(y, r) && (r == x || r == y)
  {
    if x.None? then y
    else if y.None? then x
    else Some(if x.value >= y.value then x.value else y.value)
  }

  function MaxUpper(x: Option<int>, y: Option<int>): (r: Option<int>)
    ensures UpperLe(x, r) && UpperLe(y, r) && (r == x || r == y)
  {
    if x.None? || y.None? then None
    else Some(if x.value >= y.value then x.value else y.value)
  }

  function MinUpper(x: Option<int>, y: Option<int>): (r: Option<int>)
    ensures UpperLe(r, x) && UpperLe(r, y) && (r == x || r == y)
  {
    if x.None? then y
    else if y.None? then x
    else Some(if x.value <= y.value then x.value else y.value)
  }

  /** The smallest range holding both: lower end the lesser of the two lower
      ends, upper end the greater of the two upper ends. */
  function Union(a: RangeBounds, b: RangeBounds): (r: RangeBounds)
    ensures LowerLe(r.minVal, a.minVal) && LowerLe(r.minVal, b.minVal)
    ensures r.minVal == a.minVal || r.minVal == b.minVal
    ensures UpperLe(a.maxVal, r.maxVal) && UpperLe(b.maxVal, r.maxVal)
    ensures r.maxVal == a.maxVal || r.maxVal == b.maxVal
  {
    RangeBounds(MinLower(a.minVal, b.minVal), MaxUpper(a.maxVal, b.maxVal))
  }

  /** The overlap: lower end the greater of the lower ends, upper end the
      lesser of the upper ends. */
  function Intersect(a: RangeBounds, b: RangeBounds): (r: RangeBounds)
    ensures LowerLe(a.minVal, r.minVal) && LowerLe(b.minVal, r.minVal)
    ensures r.minVal == a.minVal || r.minVal == b.minVal
    ensures UpperLe(r.maxVal, a.maxVal) && UpperLe(r.maxVal, b.maxVal)
    ensures r.maxVal == a.maxVal || r.maxVal == b.maxVal
  {
    RangeBounds(MaxLower(a.minVal, b.minVal), MinUpper(a.maxVal, b.maxVal))
  }

  /** a's lower end is at or above b's and a's upper end at or below b's. */
  predicate IsSubrangeOf(a: RangeBounds, b: RangeBounds): (r: bool)
    ensures r ==> forall x :: Contains(a, x) ==> Contains(b, x)
  {
    LowerLe(b.minVal, a.minVal) && UpperLe(a.maxVal, b.maxVal)
  }

  function AddEnds(x: Option<int>, y: Option<int>): (r: Option<int>)
    ensures r.Some? <==> x.Some? && y.Some?
  {
    if x.Some? && y.Some? then Some(x.value + y.value) else None
  }

  function SubEnds(x: Option<int>, y: Option<int>): (r: Option<int>)
    ensures r.Some? <==> x.Some? && y.Some?
  {
    if x.Some? && y.Some? then Some(x.value - y.value) else None
  }

  /** Range of `(+ x y)`: [a.min + b.min, a.max + b.max]; an open end on
      either side leaves that side of the sum open. */
  function Add(a: RangeBounds, b: RangeBounds): (r: RangeBounds)
    ensures forall x, y :: Contains(a, x) && Contains(b, y) ==> Contains(r, x + y)
  {
    RangeBounds(AddEnds(a.minVal, b.minVal), AddEnds(a.maxVal, b.maxVal))
  }

  /** Range of `(- x y)`: [a.min - b.max, a.max - b.min]. */
  function Sub(a: RangeBounds, b: RangeBounds): (r: RangeBounds)
    ensures forall x, y :: Contains(a, x) && Contains(b, y) ==> Contains(r, x - y)
  {
    RangeBounds(SubEnds(a.minVal, b.maxVal), SubEnds(a.maxVal, b.minVal))
  }

  /** The range of x in the true branch of `(if (> x k) ...)`: x's range
      intersected with [k + 1, +inf). */
  function RefineGt(r: RangeBounds, k: int): (t: RangeBounds)
    ensures forall x :: Contains(t, x) <==> Contains(r, x) && x > k
  {
    Intersect(r, RangeBounds(Some(k + 1), None))
  }

  /** The range of x in the else branch of `(if (> x k) ...)`: x's range
      intersected with (-inf, k]. */
  function RefineNotGt(r: RangeBounds, k: int): (e: RangeBounds)
    ensures forall x :: Contains(e, x) <==> Contains(r, x) && x <= k
  {
    Intersect(r, RangeBounds(None, Some(k)))
  }

  // ---------------------------------------------------------------------
  // What the operations mean for the integers a range admits.

  /** Every value of either operand is a value of the union. */
  lemma UnionContains(a: RangeBounds, b: RangeBounds, x: int)
    requires Contains(a, x) || Contains(b, x)
    ensures Contains(Union(a, b), x)
  {
  }

  /** Both operands are subranges of their union, and the union is a
      subrange of every range that holds both operands. */
  lemma {:induction false} UnionIsLeast(a: RangeBounds, b: RangeBounds, c: RangeBounds)
    ensures IsSubrangeOf(a, Union(a, b)) && IsSubrangeOf(b, Union(a, b))
    ensures IsSubrangeOf(a, c) && IsSubrangeOf(b, c) ==> IsSubrangeOf(Union(a, b), c)
  {
  }

  /** The union is a hull, not a set union: a value strictly between two
      non-overlapping ranges is in their union but in neither of them. */
  lemma UnionFillsGap(lo1: int, hi1: int, lo2: int, hi2: int, x: int)
    requires lo1 <= hi1 < x < lo2 <= hi2
    ensures Contains(Union(Closed(lo1, hi1), Closed(lo2, hi2)), x)
    ensures !Contains(Closed(lo1, hi1), x) && !Contains(Closed(lo2, hi2), x)
  {
  }

  /** The intersection admits exactly the values both operands admit. */
  lemma IntersectContains(a: RangeBounds, b: RangeBounds, x: int)
    ensures Contains(Intersect(a, b), x) <==> Contains(a, x) && Contains(b, x)
  {
  }

  /** A subrange admits no value its super-range rejects. */
  lemma SubrangeContains(a: RangeBounds, b: RangeBounds, x: int)
    requires IsSubrangeOf(a, b) && Contains(a, x)
    ensures Contains(b, x)
  {
  }

  /** For a non-empty range the bound test of `IsSubrangeOf` is exact:
      when it fails, some value of a lies outside b. */
  lemma {:induction false} NotSubrangeWitness(a: RangeBounds, b: RangeBounds) returns (x: int)
    requires NonEmpty(a) && !IsSubrangeOf(a, b)
    ensures Contains(a, x) && !Contains(b, x)
  {
    if !LowerLe(b.minVal, a.minVal) {
      // b has a finite lower end above a's lower end
      var lo := b.minVal.value - 1;
      if a.minVal.Some? {
        x := a.minVal.value;
      } else if a.maxVal.Some? && a.maxVal.value < lo {
        x := a.maxVal.value;
      } else {
        x := lo;
      }
    } else {
      // b has a finite upper end below a's upper end
      var hi := b.maxVal.value + 1;
      if a.maxVal.Some? {
        x := a.maxVal.value;
      } else if a.minVal.Some? && a.minVal.value > hi {
        x := a.minVal.value;
      } else {
        x := hi;
      }
    }
  }

  /** A value of each operand sums to a value of `Add`. */
  lemma AddContains(a: RangeBounds, b: RangeBounds, x: int, y: int)
    requires Contains(a, x) && Contains(b, y)
    ensures Contains(Add(a, b), x + y)
  {
  }

  /** A value of a minus a value of b is a value of `Sub`. */
  lemma SubContains(a: RangeBounds, b: RangeBounds, x: int, y: int)
    requires Contains(a, x) && Contains(b, y)
    ensures Contains(Sub(a, b), x - y)
  {
  }

  /** The finite ends of `Add` and `Sub` are reached, so neither is wider
      than it must be. */
  lemma {:induction false} AddSubTight(a: RangeBounds, b: RangeBounds)
    requires NonEmpty(a) && NonEmpty(b)
    ensures Add(a, b).minVal.Some? ==>
      Contains(Add(a, b), a.minVal.value + b.minVal.value) &&
      Add(a, b).minVal.value == a.minVal.value + b.minVal.value
    ensures Sub(a, b).minVal.Some? ==>
      Contains(Sub(a, b), a.minVal.value - b.maxVal.value) &&
      Sub(a, b).minVal.value == a.minVal.value - b.maxVal.value
  {
    if a.minVal.Some? && b.minVal.Some? {
      AddContains(a, b, a.minVal.value, b.minVal.value);
    }
    if a.minVal.Some? && b.maxVal.Some? {
      SubContains(a, b, a.minVal.value, b.maxVal.value);
    }
  }

  /** A value of a non-empty range that is at or below t, unless the range
      has a finite lower end, in which case it is that end. */
  function Below(r: RangeBounds, t: int): (v: int)
    requires NonEmpty(r)
    ensures Contains(r, v)
    ensures r.minVal.Some? ==> v == r.minVal.value
    ensures r.minVal.None? ==> v <= t
  {
    if r.minVal.Some? then r.minVal.value
    else if r.maxVal.Some? && r.maxVal.value < t then r.maxVal.value
    else t
  }

  /** A value of a non-empty range that is at or above t, unless the range
      has a finite upper end, in which case it is that end. */
  function Above(r: RangeBounds, t: int): (v: int)
    requires NonEmpty(r)
    ensures Contains(r, v)
    ensures r.maxVal.Some? ==> v == r.maxVal.value
    ensures r.maxVal.None? ==> v >= t
  {
    if r.maxVal.Some? then r.maxVal.value
    else if r.minVal.Some? && r.minVal.value > t then r.minVal.value
    else t
  }

  /** `Add` is exact: for non-empty operands it is a subrange of every range
      that admits all sums of their values. An end of the sum is open only
      when the sums really are unbounded on that side. */
  lemma {:induction false} AddIsLeast(a: RangeBounds, b: RangeBounds, c: RangeBounds)
    requires NonEmpty(a) && NonEmpty(b)
    requires forall x, y :: Contains(a, x) && Contains(b, y) ==> Contains(c, x + y)
    ensures IsSubrangeOf(Add(a, b), c)
  {
    if c.minVal.Some? {
      var m := c.minVal.value;
      var x := Below(a, m - 1 - Below(b, 0));
      var y := Below(b, m - 1 - x);
      assert Contains(c, x + y);
    }
    if c.maxVal.Some? {
      var n := c.maxVal.value;
      var x := Above(a, n + 1 - Above(b, 0));
      var y := Above(b, n + 1 - x);
      assert Contains(c, x + y);
    }
  }

  /** `Sub` is exact: for non-empty operands it is a subrange of every range
      that admits all differences of their values. */
  lemma {:induction false} SubIsLeast(a: RangeBounds, b: RangeBounds, c: RangeBounds)
    requires NonEmpty(a) && NonEmpty(b)
    requires forall x, y :: Contains(a, x) && Contains(b, y) ==> Contains(c, x - y)
    ensures IsSubrangeOf(Sub(a, b), c)
  {
    if c.minVal.Some? {
      var m := c.minVal.value;
      var x := Below(a, m - 1 + Above(b, 0));
      var y := Above(b, x - m + 1);
      assert Contains(c, x - y);
    }
    if c.maxVal.Some? {
      var n := c.maxVal.value;
      var x := Above(a, n + 1 + Below(b, 0));
      var y := Below(b, x - n - 1);
      assert Contains(c, x - y);
    }
  }

  /** The union of non-empty ranges is non-empty. */
  lemma UnionNonEmpty(a: RangeBounds, b: RangeBounds)
    requires NonEmpty(a) && NonEmpty(b)
    ensures NonEmpty(Union(a, b))
  {
  }

  /** Adding or subtracting non-empty ranges gives a non-empty range. */
  lemma AddSubNonEmpty(a: RangeBounds, b: RangeBounds)
    requires NonEmpty(a) && NonEmpty(b)
    ensures NonEmpty(Add(a, b)) && NonEmpty(Sub(a, b))
  {
  }

  /** The two branches of `(if (> x k) ...)` split x's range: each value
      goes to exactly one branch, the true branch when it exceeds k. */
  lemma RefineGtSplits(r: RangeBounds, k: int, x: int)
    ensures Contains(RefineGt(r, k), x) <==> Contains(r, x) && x > k
    ensures Contains(RefineNotGt(r, k), x) <==> Contains(r, x) && x <= k
  {
    IntersectContains(r, RangeBounds(Some(k + 1), None), x);
    IntersectContains(r, RangeBounds(None, Some(k)), x);
  }

  /** Refinement never widens: each branch range is a subrange of x's range,
      and an open upper end stays open in the true branch. */
  lemma RefineNarrows(r: RangeBounds, k: int)
    ensures IsSubrangeOf(RefineGt(r, k), r) && IsSubrangeOf(RefineNotGt(r, k), r)
    ensures r.maxVal.None? ==> RefineGt(r, k).maxVal.None?
  {
  }

  /** Subtracting a constant c in the true branch of `(> x k)` leaves a
      lower end of at least k + 1 - c (in `(if (> x 10) (- x 5) x)`,
      x - 5 >= 6), and an open upper end of x stays open. */
  lemma RefineThenSubtractBounds(r: RangeBounds, k: int, c: int)
    ensures Sub(RefineGt(r, k), Closed(c, c)).minVal.Some?
    ensures Sub(RefineGt(r, k), Closed(c, c)).minVal.value >= k + 1 - c
    ensures r.maxVal.None? ==> Sub(RefineGt(r, k), Closed(c, c)).maxVal.None?
  {
  }

  /** Every value x > k of x's range, less c, is admitted by that range. */
  lemma {:induction false} RefineThenSubtract(r: RangeBounds, k: int, c: int, x: int)
    requires Contains(r, x) && x > k
    ensures Contains(Sub(RefineGt(r, k), Closed(c, c)), x - c)
  {
    RefineGtSplits(r, k, x);
    SubContains(RefineGt(r, k), Closed(c, c), x, c);
  }

  // ---------------------------------------------------------------------
  // The concrete cases the checker's tests pin.

  lemma UnionExamples()
    ensures Union(Closed(0, 10), Closed(5, 15)) == Closed(0, 15)
    ensures Union(Closed(0, 5), Closed(10, 15)) == Closed(0, 15)
  {
  }

  lemma IntersectExample()
    ensures Intersect(Closed(0, 10), Closed(5, 15)) == Closed(5, 10)
  {
  }

  lemma SubrangeExample()
    ensures IsSubrangeOf(Closed(5, 10), Closed(0, 20))
    ensures !IsSubrangeOf(Closed(0, 20), Closed(5, 10))
  {
  }

  lemma ArithmeticExamples()
    ensures Add(Closed(0, 10), Closed(0, 10)) == Closed(0, 20)
    ensures Sub(Closed(1, 100), Closed(1, 100)) == Closed(-99, 99)
  {
  }

  lemma RefinementExample()
    ensures RefineGt(RangeBounds(Some(0), None), 10) == RangeBounds(Some(11), None)
    ensures Sub(RefineGt(RangeBounds(Some(0), None), 10), Closed(5, 5)) == RangeBounds(Some(6), None)
    ensures IsSubrangeOf(Sub(RefineGt(RangeBounds(Some(0), None), 10), Closed(5, 5)), RangeBounds(Some(0), None))
  {
  }
}
