/** The generated C for the language's comprehensive test program: loops,
    enum ordinals, tagged-union dispatch, `Result` construction with
    early-return error propagation, and small integer functions. */
module Comprehensive {
  import opened CInt

  // ---------------------------------------------------------------------
  // bitwise_ops

  /** `bitwise_ops(a, b)` = `(a & b) | (a ^ (b << 2))` on the two's
      complement bit patterns of its `int64_t` operands (read back with
      `FromBits`). `b << 2` is defined in C only for a non-negative b whose
      product with 4 is representable, i.e. whose top three bits are clear.
      The result's sign bit is a's: neither `b` nor `b << 2` has it set. */
  function BitwiseOps(a: bv64, b: bv64): (r: bv64)
    requires b < 0x2000_0000_0000_0000
    ensures FromBits(r) < 0 <==> FromBits(a) < 0
  {
    (a & b) | (a ^ (b << 2))
  }

  /** With b == 0 the operation is the identity on a. */
  lemma BitwiseOpsZeroRight(a: bv64)
    ensures BitwiseOps(a, 0) == a
  {
  }

  /** With a == 0 the operation is b << 2, i.e. 4 * b. */
  lemma BitwiseOpsZeroLeft(b: bv64)
    requires b < 0x2000_0000_0000_0000
    ensures BitwiseOps(0, b) == b * 4
    ensures FromBits(BitwiseOps(0, b)) == 0 <==> b == 0
  {
  }

  // ---------------------------------------------------------------------
  // sum_array

  /** The sum of s accumulated from index 0 upward. */
  function Sum(s: seq<Int64>): int
  {
    if |s| == 0 then 0 else Sum(s[..|s| - 1]) + s[|s| - 1] as int
  }

  /** Summing a concatenation sums the parts. */
  lemma {:induction false} SumAppend(s: seq<Int64>, t: seq<Int64>)
    ensures Sum(s + t) == Sum(s) + Sum(t)
    decreases |t|
  {
    if |t| > 0 {
      var t' := t[..|t| - 1];
      assert (s + t)[..|s + t| - 1] == s + t';
      SumAppend(s, t');
    } else {
      assert s + t == s;
    }
  }

  /** Every element in [lo, hi] puts the sum in [|s| * lo, |s| * hi]. */
  lemma {:induction false} SumBounds(s: seq<Int64>, lo: int, hi: int)
    requires forall k :: 0 <= k < |s| ==> lo <= s[k] as int <= hi
    ensures |s| * lo <= Sum(s) <= |s| * hi
    decreases |s|
  {
    if |s| > 0 {
      SumBounds(s[..|s| - 1], lo, hi);
    }
  }

  /** `sum_array` with the 64-bit accumulator the `int64_t` return type
      calls for: the sum of `scores[0..10)`, provided no running total
      leaves `int64_t`. */
  method SumArray(scores: array<Int64>) returns (total: Int64)
    requires scores.Length >= 10
    requires forall k :: 0 <= k <= 10 ==> InInt64(Sum(scores[..k]))
    ensures total as int == Sum(scores[..10])
  {
    total := 0;
    for i := 0 to 10
      invariant total as int == Sum(scores[..i])
    {
      assert scores[..i + 1][..i] == scores[..i];
      total := total + scores[i];
    }
  }

  /** `sum_array` as written: `__auto_type total = 0` gives the accumulator
      the type of `0`, a 32-bit `int`, so each `total + scores[i]` (computed
      in `int64_t`) is cut back to 32 bits when stored. Each addend is
      bounded so that the `int64_t` addition itself cannot overflow. */
  method SumArrayAsWritten(scores: array<Int64>) returns (total: Int32)
    requires scores.Length >= 10
    requires forall k :: 0 <= k < 10 ==>
      Int64Min - Int32Min <= scores[k] as int <= Int64Max - Int32Max
    ensures total == Wrap32(Sum(scores[..10]))
  {
    total := 0;
    for i := 0 to 10
      invariant total == Wrap32(Sum(scores[..i]))
    {
      assert scores[..i + 1][..i] == scores[..i];
      Wrap32Add(Sum(scores[..i]), scores[i] as int);
      total := Wrap32(total as int + scores[i] as int);
    }
  }

  /** An input on which the two differ: 2^31 followed by nine zeros sums to
      2^31, which the 32-bit accumulator turns into -2^31. */
  lemma SumArrayTruncates(s: seq<Int64>)
    requires |s| == 10 && s[0] == 0x8000_0000
    requires forall k :: 1 <= k < 10 ==> s[k] == 0
    ensures Sum(s) == 0x8000_0000
    ensures Wrap32(Sum(s)) as int == -0x8000_0000
  {
    assert s == [s[0]] + s[1..];
    SumAppend([s[0]], s[1..]);
    SumBounds(s[1..], 0, 0);
    assert Sum([s[0]]) == s[0] as int by {
      assert [s[0]][..0] == [];
    }
  }

  // ---------------------------------------------------------------------
  // count_down

  /** What `count_down(n)` counts: n for a positive n, else 0. */
  function CountOf(n: int): (r: nat)
    ensures r >= n && (r == n || r == 0)
  {
    if n > 0 then n else 0
  }

  /** `count_down` with a 64-bit counter: counts the steps that take n down
      to 0; the loop keeps `count + n` equal to the original n. */
  method CountDown(n: Int64) returns (count: Int64)
    ensures count as int == CountOf(n as int)
  {
    count := 0;
    var m := n;
    while m > 0
      invariant if n > 0 then 0 <= m && count as int + m as int == n as int
                else m == n && count == 0
    {
      count := count + 1;
      m := m - 1;
    }
  }

  /** `count_down` as written: `__auto_type count = 0` makes the counter a
      32-bit `int`, so `count + 1` is free of overflow only while n fits in
      `int`. */
  method CountDownAsWritten(n: Int64) returns (count: Int32)
    requires n as int <= Int32Max
    ensures count as int == CountOf(n as int)
  {
    count := 0;
    var m := n;
    while m > 0
      invariant if n > 0 then 0 <= m && count as int + m as int == n as int
                else m == n && count == 0
    {
      count := count + 1;
      m := m - 1;
    }
  }

  /** An `int64_t` argument the 32-bit counter cannot reach: for n = 2^31
      the loop must count to 2^31, one past INT32_MAX. */
  lemma CountDownOverflows()
    ensures InInt64(0x8000_0000) && CountOf(0x8000_0000) > Int32Max
  {
  }

  // ---------------------------------------------------------------------
  // state_name

  /** `GameState`; its C enumerators take the declaration ordinals 0..3. */
  datatype GameState = Waiting | Playing | Paused | Finished

  const GameStates: seq<GameState> := [Waiting, Playing, Paused, Finished]

  /** `state_name`: the if/else-if chain returns each state's position in
      the declaration, i.e. its C enumerator value. */
  function StateName(s: GameState): (r: Int64)
    ensures 0 <= r < 4 && GameStates[r] == s
  {
    if s == Waiting then 0
    else if s == Playing then 1
    else if s == Paused then 2
    else assert s.Finished?; 3
  }

  // ---------------------------------------------------------------------
  // Value and extract_value

  /** The `Value` union: variants `number` (an `int64_t`), `text`, `nothing`. */
  datatype Value = Number(number: Int64) | Text(text: string) | Nothing

  /** `comprehensive_test_Value_tag`, enumerators in declaration order. */
  datatype ValueTag = TagNumber | TagText | TagNothing

  const ValueTags: seq<ValueTag> := [TagNumber, TagText, TagNothing]

  /** The enumerator naming v's variant. */
  function KindOf(v: Value): ValueTag
  {
    match v
    case Number(_) => TagNumber
    case Text(_) => TagText
    case Nothing => TagNothing
  }

  /** The discriminant `tag`, the variant's declaration ordinal. */
  function Tag(v: Value): (t: nat)
    ensures t < 3 && ValueTags[t] == KindOf(v)
  {
    match v
    case Number(_) => 0
    case Text(_) => 1
    case Nothing => 2
  }

  /** The tag tells the variants apart: equal tags, same variant. */
  lemma TagDeterminesVariant(v: Value, w: Value)
    ensures Tag(v) == Tag(w) <==>
      (v.Number? && w.Number?) || (v.Text? && w.Text?) || (v.Nothing? && w.Nothing?)
  {
  }

  /** `extract_value`: the switch on the tag returns the number payload,
      0 for text and -1 for nothing. */
  function ExtractValue(v: Value): (r: Int64)
    ensures Tag(v) == 0 ==> r == v.number
    ensures Tag(v) == 1 ==> r == 0
    ensures Tag(v) == 2 ==> r == -1
  {
    match v
    case Number(n) => n
    case Text(_) => 0
    case Nothing => -1
  }

  // ---------------------------------------------------------------------
  // divide and safe_divide_twice

  const DivisionByZero: string := "division by zero"

  /** `slop_result_int_string`: `is_ok` with an `int64_t` ok payload or a
      string error payload. `:-` in `SafeDivideTwice` returns a failing
      result unchanged, as the generated `if (!_tmp.is_ok) return _tmp;`. */
  datatype IntStringResult = Ok(ok: Int64) | Err(err: string)
  {
    predicate IsFailure() { Err? }

    function PropagateFailure(): IntStringResult
      requires Err?
    {
      this
    }

    function Extract(): Int64
      requires Ok?
    {
      ok
    }
  }

  /** `divide(a, b)`: an error exactly when b == 0, else the C quotient
      (truncated toward zero). INT64_MIN / -1 overflows in C and is
      excluded. */
  function Divide(a: Int64, b: Int64): (r: IntStringResult)
    requires !(a as int == Int64Min && b == -1)
    ensures r.Err? <==> b == 0
    ensures r.Err? ==> r.err == DivisionByZero
    ensures r.Ok? ==> r.ok as int == TruncDiv(a as int, b as int)
  {
    if b == 0 then Err(DivisionByZero)
    else
      TruncDivInRange(a as int, b as int);
      Ok(TruncDiv(a as int, b as int) as Int64)
  }

  /** `safe_divide_twice(a, b, c)`: `(a / b) / c`, where a failing divide is
      returned unchanged and stops the computation. */
  function SafeDivideTwice(a: Int64, b: Int64, c: Int64): (r: IntStringResult)
    requires !(a as int == Int64Min && b == -1)
    requires b == 0 || !(TruncDiv(a as int, b as int) == Int64Min && c == -1)
    ensures b == 0 ==> r == Divide(a, b)
    ensures b != 0 ==> r.Ok? == (c != 0)
    ensures b != 0 && c == 0 ==> r == Divide(Divide(a, b).ok, c)
    ensures r.Ok? ==> r.ok as int == TruncDiv(TruncDiv(a as int, b as int), c as int)
  {
    var first :- Divide(a, b);
    var second :- Divide(first, c);
    Ok(second)
  }

  /** Dividing twice succeeds exactly when both divisors are nonzero, and
      then equals one division by b * c. */
  lemma SafeDivideTwiceIsOneDivision(a: Int64, b: Int64, c: Int64)
    requires !(a as int == Int64Min && b == -1)
    requires b == 0 || !(TruncDiv(a as int, b as int) == Int64Min && c == -1)
    ensures SafeDivideTwice(a, b, c).Ok? <==> b != 0 && c != 0
    ensures SafeDivideTwice(a, b, c).Err? ==> SafeDivideTwice(a, b, c).err == DivisionByZero
    ensures SafeDivideTwice(a, b, c).Ok? ==>
      SafeDivideTwice(a, b, c).ok as int == TruncDiv(a as int, b as int * c as int)
  {
    if b != 0 && c != 0 {
      TruncDivTwice(a as int, b as int, c as int);
    }
  }

  // ---------------------------------------------------------------------
  // classify, always_positive, to_byte, nested_calls

  /** `classify`: the sign of n, so that n == classify(n) * |n|. */
  function Classify(n: Int64): (r: Int64)
    ensures -1 <= r <= 1
    ensures r as int * Abs(n as int) == n as int
    ensures r == 0 <==> n == 0
  {
    if n < 0 then -1
    else if n == 0 then 0
    else 1
  }

  /** `always_positive(x)`: max(x, 1). */
  function AlwaysPositive(x: Int64): (r: Int64)
    ensures r >= 1 && r >= x
    ensures r == x || r == 1
  {
    if x < 1 then 1 else x
  }

  /** `to_byte(n)`: the conversion to `uint8_t`, which (C11 6.3.1.3) yields
      the one value in [0, 256) congruent to n modulo 256. */
  function ToByte(n: Int64): (r: UInt8)
    ensures (n as int - r as int) % 256 == 0
  {
    (n as int % 256) as UInt8
  }

  /** A byte value is kept; adding 256 does not change the byte. */
  lemma ToBytePeriodic(n: Int64)
    ensures 0 <= n < 256 ==> ToByte(n) as int == n as int
    ensures n as int + 256 <= Int64Max ==> ToByte(n + 256) == ToByte(n)
  {
  }

  /** `nested_calls(a, b)`: the sign of `bitwise_ops(a, b)`, which is -1
      exactly when a is negative. */
  function NestedCalls(a: bv64, b: bv64): (r: Int64)
    requires b < 0x2000_0000_0000_0000
    ensures r == -1 <==> FromBits(a) < 0
    ensures -1 <= r <= 1
  {
    Classify(FromBits(BitwiseOps(a, b)))
  }

  /** With a == 0, `nested_calls` is the sign of b. */
  lemma NestedCallsZeroLeft(b: bv64)
    requires b < 0x2000_0000_0000_0000
    ensures NestedCalls(0, b) == Classify(FromBits(b))
  {
    BitwiseOpsZeroLeft(b);
  }
}
