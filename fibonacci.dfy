/** The generated C for the Fibonacci example: a recursive `fib` over
    `int64_t` and a function that collects fib(0) .. fib(count - 1) into a
    growable list (`data`, `len`, `cap`) whose push reallocates when full. */
module Fibonacci {
  import opened CInt

  /** The Fibonacci numbers over the integers, with fib(n) == n for n <= 1
      (so the C function returns a negative argument unchanged). */
  function FibNumber(n: int): int
    decreases if n < 0 then 0 else n
  {
    if n <= 1 then n else FibNumber(n - 1) + FibNumber(n - 2)
  }

  /** fib of a natural index is a natural number (the `Natural` return type). */
  lemma {:induction false} FibNonNegative(n: int)
    requires n >= 0
    ensures FibNumber(n) >= 0
    decreases n
  {
    if n >= 2 {
      FibNonNegative(n - 1);
      FibNonNegative(n - 2);
    }
  }

  /** fib is non-decreasing on the natural numbers. */
  lemma {:induction false} FibMonotone(i: int, j: int)
    requires 0 <= i <= j
    ensures FibNumber(i) <= FibNumber(j)
    decreases j - i
  {
    if i < j {
      FibMonotone(i, j - 1);
      if j >= 2 {
        FibNonNegative(j - 2);
      }
    }
  }

  /** `fibonacci_fib`: the C recursion over `int64_t`. Its callers must keep
      fib(n) within `int64_t`; every intermediate sum is then in range too. */
  function Fib(n: Int64): (r: Int64)
    requires n <= 1 || FibNumber(n as int) <= Int64Max
    ensures r as int == FibNumber(n as int)
    decreases if n < 0 then 0 else n as int
  {
    if n <= 1 then n
    else
      FibNonNegative(n as int - 2);
      FibNonNegative(n as int - 1);
      Fib(n - 1) + Fib(n - 2)
  }

  /** The capacity a full list grows to: 16 for an unallocated list, else
      double. It always makes room for one more element. */
  function NewCapacity(cap: nat): (r: nat)
    ensures r > cap && r >= 2 * cap
    ensures cap == 0 ==> r == 16
    ensures cap >= 16 ==> r >= 32
  {
    if cap == 0 then 16 else cap * 2
  }

  /** `slop_list_fibonacci_Natural`: a buffer `data` of `cap` slots of which
      the first `len` are in use. */
  class NaturalList {
    var data: array<Int64>
    var len: nat
    var cap: nat

    ghost predicate Valid()
      reads this
    {
      len <= cap && data.Length == cap
    }

    /** The elements pushed so far, in push order. */
    function Elements(): seq<Int64>
      reads this, data
      requires Valid()
    {
      data[..len]
    }

    /** The list literal `{ .data = alloc(16), .len = 0, .cap = 16 }`. */
    constructor ()
      ensures Valid() && fresh(data)
      ensures len == 0 && cap == 16 && Elements() == []
    {
      data := new Int64[16];
      len := 0;
      cap := 16;
    }

    /** The inline push: grow to `NewCapacity(cap)` and copy the first `len`
        elements when `len >= cap`, then store the item at `len`. */
    method Push(item: Int64)
      requires Valid()
      modifies this, data
      ensures Valid()
      ensures len == old(len) + 1
      ensures Elements() == old(Elements()) + [item]
      ensures cap == if old(len) >= old(cap) then NewCapacity(old(cap)) else old(cap)
      ensures old(len) < old(cap) ==> data == old(data)
      ensures old(len) >= old(cap) ==> fresh(data)
    {
      if len >= cap {
        var newCap := NewCapacity(cap);
        var newData := new Int64[newCap];
        if len > 0 {
          forall i | 0 <= i < len {
            newData[i] := data[i];
          }
        }
        data := newData;
        cap := newCap;
      }
      data[len] := item;
      len := len + 1;
    }
  }

  /** s holds fib(0), ..., fib(|s| - 1). */
  ghost predicate IsFibPrefix(s: seq<Int64>)
  {
    forall j :: 0 <= j < |s| ==> s[j] as int == FibNumber(j)
  }

  lemma FibPrefixExtend(s: seq<Int64>, x: Int64)
    requires IsFibPrefix(s) && x as int == FibNumber(|s|)
    ensures IsFibPrefix(s + [x])
  {
  }

  /** `fibonacci_fibonacci_sequence`: the list [fib(0), ..., fib(count - 1)]
      (empty when count <= 0). The precondition keeps the last, and so every,
      fib within `int64_t`. */
  method FibonacciSequence(count: Int64) returns (result: NaturalList)
    requires count <= 0 || FibNumber(count as int - 1) <= Int64Max
    ensures fresh(result) && result.Valid()
    ensures result.len == if count > 0 then count as int else 0
    ensures IsFibPrefix(result.Elements())
    ensures result.cap >= 16
  {
    result := new NaturalList();
    var i: Int64 := 0;
    while i < count
      invariant 0 <= i && (if count > 0 then i <= count else i == 0)
      invariant fresh(result) && fresh(result.data) && result.Valid()
      invariant result.len == i as int && result.cap >= 16
      invariant IsFibPrefix(result.Elements())
    {
      if i > 1 {
        FibMonotone(i as int, count as int - 1);
      }
      var item := Fib(i);
      ghost var before := result.Elements();
      result.Push(item);
      FibPrefixExtend(before, item);
      i := i + 1;
    }
  }
}
