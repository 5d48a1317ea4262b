# SLOP generated programs and range arithmetic, in Dafny

SLOP is a small Lisp-syntaxed systems language that compiles to C. Its
compiler checks range-bounded integer types (`(Int 0 .. 10)`) by interval
arithmetic with refinement along branches, and it emits C that uses
`int64_t` for integers, C enums for enums, tagged structs for unions, and
`is_ok` result structs for `Result`.

This project models two things:

- **The checked-in C output of the example programs.** Each C function is
  a Dafny function or method with the same branches, constants and error
  cases. The sources are `examples/fibonacci.c`, `comprehensive.c`,
  `examples/c-interop/libmylib.c` and `examples/math.c`.
  - `int64_t`, `int` and `uint8_t` are the newtypes `CInt.Int64`,
    `CInt.Int32` and `CInt.UInt8`, so Dafny checks every arithmetic step
    for overflow. Signed overflow is undefined in C, and preconditions
    exclude it.
  - C's truncating `/` is `CInt.TruncDiv`. Dafny's own `/` is Euclidean.
  - `bitwise_ops` and `nested_calls` take their `int64_t` operands as
    64-bit two's complement bit patterns (`bv64`). `CInt.FromBits` reads a
    result back as an `int64_t`.
  - The Fibonacci list, whose push updates `data`, `len` and `cap` in
    place, is the class `Fibonacci.NaturalList` over an array.
- **`RangeBounds`, the checker's interval type** (module `Ranges`). Each
  end is optional: an absent end is infinite. The model has union,
  intersection, the subrange test, the range of `+` and `-`, and the
  refinement of a variable in both branches of `(if (> x k) ...)`. Each
  is related to the set of integers a range admits. The concrete cases
  that the checker's tests pin are instances.

The checked-in `comprehensive.c` encodes `Result` as an `is_ok` flag with
an `ok`/`err` payload, while the transpiler's tests at
tests/test_transpiler.py:209-213 expect a `tag` field with ok at 0
(`.tag = 0, .data.ok =` and `_tmp.tag != 0`). The model follows the file:
`Comprehensive.IntStringResult`.

## Model

| member | source | states |
|---|---|---|
| CInt.TruncDiv | comprehensive.c:133 | C's `/`: the magnitude of the quotient is `abs(a) / abs(b)`, and a nonzero quotient is negative exactly when the signs of a and b differ |
| CInt.TruncDivRem | examples/math.c:19 | C's division identity `(a/b)*b + a%b == a`: the remainder is smaller than `abs(b)` and is zero or has the sign of a |
| CInt.TruncDivInRange | comprehensive.c:133 | the quotient of two `int64_t` values fits in `int64_t` unless it is INT64_MIN / -1 |
| CInt.TruncDivTwice | comprehensive.c:137-143 | truncating by b and then by c gives the same result as truncating once by `b * c` |
| CInt.FromBits | comprehensive.c:72-74 | reading a bit pattern as `int64_t`: negative exactly when bit 63 is set, and zero exactly for the zero pattern |
| CInt.Wrap32 | comprehensive.c:78-81 | storing a value into a 32-bit `int` keeps it when it fits, and otherwise gives the congruent value modulo 2^32 |
| CInt.Wrap32Add | comprehensive.c:78-81 | wrapping the running total before each addition gives the same 32-bit result as wrapping once at the end |
| Fibonacci.FibNonNegative | examples/fibonacci.c:10-12 | fib of a natural index is natural, which matches the `Natural` return type |
| Fibonacci.FibMonotone | examples/fibonacci.c:31-37 | fib does not decrease on the natural numbers, so if fib(n) fits in `int64_t`, every smaller index fits too |
| Fibonacci.Fib | examples/fibonacci.c:31-37 | the `int64_t` recursion equals the Fibonacci number (n itself for n <= 1) whenever that number fits in `int64_t` |
| Fibonacci.NewCapacity | examples/fibonacci.c:43 | a full list grows to 16 from capacity 0, otherwise to at least double its capacity, and always to more than before |
| Fibonacci.NaturalList.constructor | examples/fibonacci.c:41 | a new list has `len == 0`, `cap == 16` and no elements |
| Fibonacci.NaturalList.Push | examples/fibonacci.c:43 | the list grows exactly when `len >= cap`, to `NewCapacity(cap)` in a fresh buffer; the item is appended, `len` increases by 1, earlier elements are unchanged, and `len <= cap` still holds |
| Fibonacci.FibPrefixExtend | examples/fibonacci.c:42-44 | appending fib(i) to fib(0..i-1) gives fib(0..i) |
| Fibonacci.FibonacciSequence | examples/fibonacci.c:39-47 | for `count >= 0` the result has `len == count` and element i is fib(i); for a negative count it is empty; the capacity stays at least 16 |
| Comprehensive.BitwiseOps | comprehensive.c:72-74 | with b non-negative and `b << 2` in range, the result is negative exactly when a is negative |
| Comprehensive.BitwiseOpsZeroRight | comprehensive.c:72-74 | `bitwise_ops(a, 0) == a` |
| Comprehensive.BitwiseOpsZeroLeft | comprehensive.c:72-74 | `bitwise_ops(0, b) == 4 * b`, which is zero only for b == 0 |
| Comprehensive.SumAppend | comprehensive.c:76-84 | the index-order sum of a concatenation is the sum of its parts |
| Comprehensive.SumBounds | comprehensive.c:76-84 | if every element is in [lo, hi], the sum is in [n*lo, n*hi] |
| Comprehensive.SumArray | comprehensive.c:76-84 | with a 64-bit accumulator, the result is the sum of `scores[0..10)` added in index order |
| Comprehensive.SumArrayAsWritten | comprehensive.c:78-81 | with the 32-bit accumulator the code declares, the result is the sum reduced modulo 2^32 into `int` |
| Comprehensive.SumArrayTruncates | comprehensive.c:78-81 | for 2^31 followed by nine zeros, the sum is 2^31 but the 32-bit accumulator gives -2^31 |
| Comprehensive.CountOf | comprehensive.c:86-95 | the count is n for positive n and 0 otherwise, so it is at least n |
| Comprehensive.CountDown | comprehensive.c:86-95 | the result is n when n > 0 and 0 otherwise; the loop keeps `count + n` equal to the original n |
| Comprehensive.CountDownAsWritten | comprehensive.c:88-92 | with the 32-bit `int` counter, the same result holds, but only for n up to INT32_MAX |
| Comprehensive.CountDownOverflows | comprehensive.c:88-92 | n = 2^31 is a valid `int64_t` argument whose count does not fit in `int` |
| Comprehensive.StateName | comprehensive.c:97-107 | waiting, playing, paused and finished map to 0, 1, 2 and 3, each state's position in the enum declaration at comprehensive.c:13-18 |
| Comprehensive.Tag | comprehensive.c:31-43 | the union's discriminant is the position of the variant's enumerator in the tag enum's declaration at comprehensive.c:31-35 (number, text, nothing), so it is below 3 |
| Comprehensive.TagDeterminesVariant | comprehensive.c:31-35 | two values have the same tag exactly when they are the same variant |
| Comprehensive.ExtractValue | comprehensive.c:109-127 | dispatch on the tag: tag 0 returns the number payload, tag 1 returns 0, tag 2 returns -1 |
| Comprehensive.Divide | comprehensive.c:129-135 | the result is an error exactly when b == 0, with message "division by zero"; otherwise it is ok with the truncated quotient |
| Comprehensive.SafeDivideTwice | comprehensive.c:137-143 | a failing first divide is returned unchanged; otherwise a failing second divide is returned unchanged; otherwise the result is ok with `(a/b)/c` |
| Comprehensive.SafeDivideTwiceIsOneDivision | comprehensive.c:137-143 | the result is ok exactly when b and c are both nonzero, and then it equals `a / (b*c)`; every error is "division by zero" |
| Comprehensive.Classify | comprehensive.c:145-153 | the result is -1, 0 or 1 with `classify(n) * abs(n) == n`, and it is 0 exactly for n == 0 |
| Comprehensive.AlwaysPositive | comprehensive.c:185-191 | the result is max(x, 1), so it is at least 1 and at least x |
| Comprehensive.ToByte | comprehensive.c:177-179 | the `uint8_t` conversion gives the value in [0, 256) that is congruent to n modulo 256 |
| Comprehensive.ToBytePeriodic | comprehensive.c:177-179 | a value already in [0, 256) is kept, and adding 256 does not change the byte |
| Comprehensive.NestedCalls | comprehensive.c:193-195 | the result is the sign of `bitwise_ops(a, b)`: in [-1, 1], and -1 exactly when a is negative |
| Comprehensive.NestedCallsZeroLeft | comprehensive.c:193-195 | `nested_calls(0, b)` is the sign of b |
| MyLib.ConfigGetTimeout | examples/c-interop/libmylib.c:8-10 | returns the `timeout` field; the round trips with the constructor are CreateConfig and CreateFromGetters |
| MyLib.ConfigGetRetries | examples/c-interop/libmylib.c:12-14 | returns the `retries` field; the round trips with the constructor are CreateConfig and CreateFromGetters |
| MyLib.ConfigIsEnabled | examples/c-interop/libmylib.c:16-18 | returns the `enabled` field; the round trips with the constructor are CreateConfig and CreateFromGetters |
| MyLib.CreateConfig | examples/c-interop/libmylib.c:4-18 | after `create_config(t, r, e)` the three getters return t, r and e |
| MyLib.CreateFromGetters | examples/c-interop/libmylib.c:4-18 | rebuilding a config from its getters gives back the same config |
| MyLib.Add | examples/c-interop/libmylib.c:20-22 | returns `a + b` whenever the sum fits in `int64_t` |
| MyLib.Multiply | examples/c-interop/libmylib.c:24-26 | returns `a * b` whenever the product fits in `int64_t` |
| MyLib.StatusCode | examples/c-interop/libmylib.c:28-38 | ok, error and timeout map to 0, 1 and 2, their declaration ordinals; the -1 fallback is never returned |
| MyLib.ValidateTimeout | examples/c-interop/libmylib.c:44-46 | returns 1 exactly when 0 <= timeout <= 3600, and 0 otherwise |
| MyLib.ValidateRetries | examples/c-interop/libmylib.c:48-50 | returns 1 exactly when 0 <= retries <= 10, and 0 otherwise |
| MyLib.ParseConfig | examples/c-interop/libmylib.c:40-42 | ignores both strings and returns the config (30, 3, enabled), which both validators accept |
| Math.Divide | examples/math.c:18-20 | returns the truncating quotient for a denominator of at least 1; the result is no larger in size than the numerator and is 0 or has the numerator's sign |
| Math.DivideRoundsTowardZero | examples/math.c:18-20 | `abs(q*d) <= abs(n) < abs(q*d) + d`: the quotient rounds toward zero |
| Math.AbsPositive | examples/math.c:22-24 | returns its argument unchanged, so a `Positive` input gives a `Positive` output |
| Ranges.Union | tests/test_type_checker.py:16-28 | the lower end is the lesser of the two lower ends and the upper end is the greater of the two upper ends; an infinite end dominates |
| Ranges.Intersect | tests/test_type_checker.py:30-35 | the lower end is the greater of the two lower ends and the upper end is the lesser of the two upper ends |
| Ranges.IsSubrangeOf | tests/test_type_checker.py:37-41 | when the bound test holds, every value of the first range is a value of the second; NotSubrangeWitness proves the converse for a non-empty first range |
| Ranges.Add | tests/test_type_checker.py:70-81 | the sum of any value of a and any value of b lies in the range of `(+ x y)`; AddIsLeast proves the range is no wider than that |
| Ranges.Sub | tests/test_type_checker.py:83-94 | the difference of any value of a and any value of b lies in the range of `(- x y)`; SubIsLeast proves the range is no wider than that |
| Ranges.RefineGt | tests/test_type_checker.py:142-155 | in the true branch of `(if (> x k) ...)` x's range admits exactly the values of x's range that exceed k |
| Ranges.RefineNotGt | tests/test_type_checker.py:142-155 | in the else branch x's range admits exactly the values of x's range that are at most k |
| Ranges.UnionContains | tests/test_type_checker.py:16-21 | every value of either operand is a value of the union |
| Ranges.UnionIsLeast | tests/test_type_checker.py:16-28 | both operands are subranges of the union, and the union is a subrange of every range that contains both |
| Ranges.UnionFillsGap | tests/test_type_checker.py:23-28 | the union of disjoint ranges contains the gap between them: it is a hull, not a set union |
| Ranges.IntersectContains | tests/test_type_checker.py:30-35 | the intersection admits exactly the values that both operands admit |
| Ranges.SubrangeContains | tests/test_type_checker.py:37-41 | a subrange admits no value that its enclosing range rejects |
| Ranges.NotSubrangeWitness | tests/test_type_checker.py:37-41 | when the bound test fails for a non-empty range, some value of the first range lies outside the second, so the test is exact |
| Ranges.AddContains | tests/test_type_checker.py:70-81 | the sum of a value of a and a value of b is a value of `Add(a, b)` |
| Ranges.SubContains | tests/test_type_checker.py:83-94 | the difference of a value of a and a value of b is a value of `Sub(a, b)` |
| Ranges.AddIsLeast | tests/test_type_checker.py:70-81 | for non-empty operands, `Add(a, b)` is a subrange of every range admitting all sums of their values: with AddContains, it is exactly the range of the sums, `[a.min + b.min, a.max + b.max]` with open ends only where the sums are unbounded |
| Ranges.SubIsLeast | tests/test_type_checker.py:83-94 | for non-empty operands, `Sub(a, b)` is a subrange of every range admitting all differences of their values: with SubContains, it is exactly `[a.min - b.max, a.max - b.min]` |
| Ranges.AddSubTight | tests/test_type_checker.py:70-94 | the finite lower ends of `Add` and `Sub` are reached by actual operand values |
| Ranges.UnionNonEmpty | tests/test_type_checker.py:16-28 | the union of two non-empty ranges is non-empty |
| Ranges.AddSubNonEmpty | tests/test_type_checker.py:70-94 | adding or subtracting non-empty ranges gives a non-empty range |
| Ranges.RefineGtSplits | tests/test_type_checker.py:142-155 | in `(if (> x k) ...)` each value of x goes to the then-branch exactly when it exceeds k, and to the else-branch otherwise |
| Ranges.RefineNarrows | tests/test_type_checker.py:142-155 | both branch ranges are subranges of x's range, and an infinite upper end stays infinite |
| Ranges.RefineThenSubtractBounds | tests/test_type_checker.py:142-155 | after refining by `> k` and subtracting c, the lower end is at least k + 1 - c (x - 5 >= 6 in the test), and an infinite upper end stays infinite |
| Ranges.RefineThenSubtract | tests/test_type_checker.py:142-155 | every value x > k of x's range, less c, is admitted by the refined-and-subtracted range |
| Ranges.UnionExamples | tests/test_type_checker.py:16-28 | [0,10] union [5,15] is [0,15], and [0,5] union [10,15] is [0,15] |
| Ranges.IntersectExample | tests/test_type_checker.py:30-35 | [0,10] intersect [5,15] is [5,10] |
| Ranges.SubrangeExample | tests/test_type_checker.py:37-41 | [5,10] is a subrange of [0,20], and [0,20] is not a subrange of [5,10] |
| Ranges.ArithmeticExamples | tests/test_type_checker.py:70-94 | [0,10] + [0,10] is [0,20], and [1,100] - [1,100] is [-99,99] |
| Ranges.RefinementExample | tests/test_type_checker.py:142-155 | [0,inf) refined by `> 10` is [11,inf); subtracting 5 gives [6,inf), which lies inside [0,inf) |

## Left out

- The compiler itself: parser, type registry, environment, diagnostics and the C code generator. They are not part of this model. Of the checker, only the `RangeBounds` operations pinned by its tests are modelled.
- Range multiplication, division ranges, and refinement by `<`, `>=`, `<=`, `==`, `!=` and nil tests. These depend on checker code that is not part of this model. Only the `>` refinement has its resulting range stated by a test (the comment at tests/test_type_checker.py:152).
- `main` in examples/fibonacci.c, comprehensive.c and examples/c-interop/main.c, and the `printf` in `sequence_test`: they are I/O only.
- The arena runtime (`slop_arena_new`, `slop_arena_alloc`, `slop_arena_free`) is a foreign library. The list buffer is a freshly allocated Dafny array, and allocation never fails. `arena_test` and its unreachable free are left out.
- `get_address`: it returns the address of a by-value parameter, a dangling pointer. `inline_c` is a verbatim escape that returns 42. `option_test` is undefined when `has_value` is false. `sequence_test` only prints and adds 1.
- The headers `examples/c-interop/slop_mylib.h` and `mylib_public.h`: they hold declarations only, and `slop_str` relies on `strlen` over C strings.
- Fibonacci.NaturalList.Push: `cap * 2` and `len++` are unbounded `nat`s. The model does not capture `size_t` wrap-around of the capacity.
- Fibonacci.FibonacciSequence: the `arena` parameter is dropped. The method requires fib(count - 1) to fit in `int64_t`, which excludes the source's signed overflow.
- Comprehensive.BitwiseOps: the operands are bit patterns, not `int64_t` values. It requires b in [0, 2^61), because `b << 2` is undefined in C for negative b or an unrepresentable product.
- Comprehensive.SumArrayAsWritten: it requires each score to lie at least 2^31 inside the `int64_t` range. That is a sufficient, not exact, condition for the `int64_t` addition `total + scores[i]` not to overflow.
- Comprehensive.ExtractValue: the `text` payload is a Dafny string, not a `slop_string` struct.
- MyLib.ParseConfig: the `char*` arguments are Dafny strings. They are never read.

## Findings

| source | as written | input that shows it | evidently intended | confidence | as-written member | corrected member |
|---|---|---|---|---|---|---|
| comprehensive.c:78-81 | `__auto_type total = 0` gives the accumulator the type `int` (32 bits). Each `int64_t` sum stored back is reduced modulo 2^32, as GCC defines the conversion | scores = {2147483648, 0, 0, 0, 0, 0, 0, 0, 0, 0}: returns -2147483648 | an `int64_t` accumulator that returns 2147483648, the 64-bit sum the return type promises | medium (GCC's conversion rule); not executed | Comprehensive.SumArrayAsWritten, Comprehensive.SumArrayTruncates | Comprehensive.SumArray |
| comprehensive.c:88-92 | `__auto_type count = 0` makes the counter an `int`, so `count + 1` overflows (undefined behaviour) once n exceeds INT32_MAX | n = 2147483648 | an `int64_t` counter that returns 2147483648 | high; not executed | Comprehensive.CountDownAsWritten, Comprehensive.CountDownOverflows | Comprehensive.CountDown |
