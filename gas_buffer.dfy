/**
 * The gas-price oracle's sample window: a bounded first-in first-out buffer that keeps
 * the most recent samples, and the ceiling average of the gas prices it holds.
 */
module GasBuffer {
  import opened Wrappers

  const U128_MAX: nat := 0xFFFF_FFFF_FFFF_FFFF_FFFF_FFFF_FFFF_FFFF

  type U128 = n: nat | n <= U128_MAX

  /**
   * The capacity a double-ended queue allocates when it first grows from empty, for
   * elements of 2 to 1024 bytes (such as `u128` samples and gas prices).
   */
  const MIN_NON_ZERO_CAP: nat := 4

  /** The last `cap` elements of `s`, or all of `s` if it is shorter. */
  function Window<T>(s: seq<T>, cap: nat): (w: seq<T>)
    ensures |w| == if |s| <= cap then |s| else cap
    ensures w == s[|s| - |w|..]
  {
    if |s| <= cap then s else s[|s| - cap..]
  }

  /** Pushing one element onto a full window of the history drops its oldest element. */
  lemma WindowStep<T>(s: seq<T>, x: T, cap: nat)
    requires cap > 0
    ensures Window(Window(s, cap) + [x], cap) == Window(s + [x], cap)
  {
    var w := Window(s, cap);
    if |s| >= cap {
      assert w + [x] == (s + [x])[|s| - cap..];
    }
  }

  /** The capacity a full queue grows to: twice the old one, and at least the minimum. */
  function Grown(cap: nat): (c: nat)
    ensures c > cap && c >= MIN_NON_ZERO_CAP
    ensures cap == 0 ==> c == MIN_NON_ZERO_CAP
  {
    if 2 * cap < MIN_NON_ZERO_CAP then MIN_NON_ZERO_CAP else 2 * cap
  }

  /** Appending to a window with room keeps everything; appending to a full one drops the oldest element. */
  lemma WindowPush<T>(s: seq<T>, x: T, cap: nat)
    requires 0 < cap && |s| <= cap
    ensures Window(s + [x], cap) == (if |s| == cap then s[1..] else s) + [x]
  {
    if |s| == cap {
      assert s[1..] + [x] == (s + [x])[1..];
    }
  }

  /** `SlidingWindowBuffer`: a queue of samples, oldest first, that never holds more than its capacity. */
  class SlidingWindowBuffer<T> {
    /** The samples, from the oldest to the newest. */
    var items: seq<T>
    /** The capacity of the underlying queue. */
    var cap: nat

    predicate Valid()
      reads this
    {
      |items| <= cap
    }

    /** `new`: an empty buffer with room for `capacity` samples. */
    constructor (capacity: nat)
      ensures Valid() && items == [] && cap == capacity
    {
      items := [];
      cap := capacity;
    }

    /** `len`: never more than the capacity. */
    function Len(): (n: nat)
      requires Valid()
      reads this
      ensures n == |items| && n <= Capacity()
    {
      |items|
    }

    /** `is_empty`. */
    function IsEmpty(): (b: bool)
      reads this
      ensures b <==> |items| == 0
    {
      |items| == 0
    }

    /** `capacity`. */
    function Capacity(): (c: nat)
      reads this
      ensures c == cap
    {
      cap
    }

    /** `iter`: the samples from the oldest to the newest. */
    function Iter(): (s: seq<T>)
      reads this
      ensures s == items
    {
      items
    }

    /** `pop`: removes and returns the oldest sample, if there is one; the capacity stays. */
    method Pop() returns (r: Option<T>)
      requires Valid()
      modifies this
      ensures Valid() && cap == old(cap)
      ensures old(items) == [] ==> r == None && items == []
      ensures old(items) != [] ==> r == Some(old(items)[0]) && items == old(items)[1..]
    {
      if |items| == 0 {
        return None;
      }
      r := Some(items[0]);
      items := items[1..];
    }

    /**
     * `push`: evicts and returns the oldest sample when the buffer is at capacity, then
     * appends the new one. A queue with capacity 0 cannot evict anything; appending to
     * it allocates room for `MIN_NON_ZERO_CAP` samples.
     */
    method Push(sample: T) returns (evicted: Option<T>)
      requires Valid()
      modifies this
      ensures Valid()
      ensures evicted.Some? <==> |old(items)| == old(cap) && old(cap) > 0
      ensures evicted.Some? ==> evicted.value == old(items)[0]
      ensures items == (if evicted.Some? then old(items)[1..] else old(items)) + [sample]
      ensures cap == if old(cap) == 0 then MIN_NON_ZERO_CAP else old(cap)
      ensures old(cap) > 0 ==> items == Window(old(items) + [sample], cap)
    {
      ghost var before := items;
      if |items| == cap {
        evicted := Pop();
      } else {
        evicted := None;
      }
      if |items| == cap {
        // The queue is still full, which only an empty queue of capacity 0 can be.
        cap := Grown(cap);
      }
      items := items + [sample];
      if old(cap) > 0 {
        WindowPush(before, sample, cap);
      }
    }

    /**
     * Pushing `xs` one by one: what was in the buffer followed by `xs` is what was evicted
     * followed by what the buffer now holds, and the buffer holds the last `cap` of them.
     */
    method PushAll(xs: seq<T>) returns (evicted: seq<T>)
      requires Valid() && cap > 0
      modifies this
      ensures Valid() && cap == old(cap)
      ensures evicted + items == old(items) + xs
      ensures items == Window(old(items) + xs, cap)
    {
      evicted := [];
      var i := 0;
      while i < |xs|
        invariant 0 <= i <= |xs|
        invariant Valid() && cap == old(cap)
        invariant evicted + items == old(items) + xs[..i]
        invariant items == Window(old(items) + xs[..i], cap)
      {
        ghost var before := items;
        var out := Push(xs[i]);
        EvictedStep(evicted, before, items, out, xs[i]);
        WindowStep(old(items) + xs[..i], xs[i], cap);
        PrefixSnoc(old(items), xs, i);
        if out.Some? {
          evicted := evicted + [out.value];
        }
        i := i + 1;
      }
      assert xs[..i] == xs;
    }
  }

  lemma PrefixSnoc<T>(h: seq<T>, xs: seq<T>, i: nat)
    requires i < |xs|
    ensures h + xs[..i + 1] == (h + xs[..i]) + [xs[i]]
  {
    assert xs[..i + 1] == xs[..i] + [xs[i]];
  }

  /** One push, seen from outside: the evicted sample and the new contents together extend the old contents. */
  lemma EvictedStep<T>(evicted: seq<T>, before: seq<T>, after: seq<T>, out: Option<T>, x: T)
    requires out.Some? ==> |before| > 0 && out.value == before[0]
    requires after == (if out.Some? then before[1..] else before) + [x]
    ensures (if out.Some? then evicted + [out.value] else evicted) + after == evicted + before + [x]
  {
    if out.Some? {
      assert before == [out.value] + before[1..];
    }
  }

  /** Gas prices in wei (`eth`) and fri (`strk`); valid prices are non-zero. */
  datatype GasPrices = GasPrices(eth: U128, strk: U128)

  const MIN_GAS_PRICES := GasPrices(1, 1)

  predicate NonZero(p: GasPrices) {
    p.eth > 0 && p.strk > 0
  }

  /** `u128::saturating_add`. */
  function SaturatingAdd(a: U128, b: U128): (r: U128)
    ensures r == if a + b <= U128_MAX then a + b else U128_MAX
  {
    if a + b <= U128_MAX then a + b else U128_MAX
  }

  /** The exact sums, with no bound. */
  function TotalEth(ps: seq<GasPrices>): nat {
    if |ps| == 0 then 0 else TotalEth(ps[..|ps| - 1]) + ps[|ps| - 1].eth
  }

  function TotalStrk(ps: seq<GasPrices>): nat {
    if |ps| == 0 then 0 else TotalStrk(ps[..|ps| - 1]) + ps[|ps| - 1].strk
  }

  function Min(a: nat, b: nat): nat {
    if a <= b then a else b
  }

  /**
   * `sum_gas_prices`: the component-wise left fold with saturating additions, which is
   * the exact sum capped at `u128::MAX`; over non-zero prices, a non-empty sum is non-zero.
   */
  function SumGasPrices(ps: seq<GasPrices>): (r: GasPrices)
    ensures r.eth == Min(TotalEth(ps), U128_MAX) && r.strk == Min(TotalStrk(ps), U128_MAX)
    ensures |ps| > 0 && (forall p :: p in ps ==> NonZero(p)) ==> NonZero(r)
  {
    if |ps| == 0 then GasPrices(0, 0)
    else
      assert forall p :: p in ps[..|ps| - 1] ==> p in ps;
      var acc := SumGasPrices(ps[..|ps| - 1]);
      assert ps[|ps| - 1] in ps;
      GasPrices(SaturatingAdd(acc.eth, ps[|ps| - 1].eth), SaturatingAdd(acc.strk, ps[|ps| - 1].strk))
  }

  /** `u128::div_ceil`: the least multiple count of `b` that covers `a`. */
  function DivCeil(a: U128, b: nat): (q: U128)
    requires b > 0
    ensures q * b >= a
    ensures q == 0 || (q - 1) * b < a
    ensures q <= a
    ensures a > 0 ==> q > 0
  {
    DivCeilBounds(a, b);
    if a % b > 0 then a / b + 1 else a / b
  }

  lemma DivCeilBounds(a: nat, b: nat)
    requires b > 0
    ensures var q := if a % b > 0 then a / b + 1 else a / b;
            q * b >= a && (q == 0 || (q - 1) * b < a) && q <= a
  {
    var d, m := a / b, a % b;
    assert a == d * b + m;
    assert d * b >= d by {
      assert b >= 1;
    }
    if m > 0 {
      assert (d + 1) * b == d * b + b;
    } else if d > 0 {
      assert (d - 1) * b == d * b - b;
    }
  }

  /**
   * `GasPricesBuffer::average`: `MIN` for no samples, otherwise each component is the
   * ceiling of its (capped) sum over the number of samples.
   */
  function AveragePrices(samples: seq<GasPrices>): (r: GasPrices)
    ensures |samples| == 0 ==> r == MIN_GAS_PRICES
    ensures |samples| > 0 ==>
              var sum := SumGasPrices(samples);
              && r.eth * |samples| >= sum.eth && (r.eth - 1) * |samples| < sum.eth
              && r.strk * |samples| >= sum.strk && (r.strk - 1) * |samples| < sum.strk
    ensures (forall p :: p in samples ==> NonZero(p)) ==> NonZero(r)
  {
    if |samples| == 0 then MIN_GAS_PRICES
    else
      var sum := SumGasPrices(samples);
      var eth := DivCeil(sum.eth, |samples|);
      var strk := DivCeil(sum.strk, |samples|);
      GasPrices(eth, strk)
  }

  /** `GasPricesBuffer`: a sliding window of gas prices. */
  class GasPricesBuffer {
    const window: SlidingWindowBuffer<GasPrices>

    predicate Valid()
      reads this, window
    {
      window.Valid()
    }

    /** `new`: an empty window with room for `size` samples. */
    constructor (size: nat)
      ensures Valid() && fresh(window)
      ensures window.items == [] && window.cap == size
    {
      window := new SlidingWindowBuffer(size);
    }

    /** `push`: adds a sample, dropping the oldest one when the window is full. */
    method Push(prices: GasPrices)
      requires Valid()
      modifies window
      ensures Valid()
      ensures window.cap == if old(window.cap) == 0 then MIN_NON_ZERO_CAP else old(window.cap)
      ensures old(window.cap) > 0 ==> window.items == Window(old(window.items) + [prices], window.cap)
      ensures old(window.cap) == 0 ==> window.items == [prices]
    {
      var _ := window.Push(prices);
    }

    /** `average`: the ceiling average of the samples in the window. */
    method Average() returns (r: GasPrices)
      requires Valid()
      ensures r == AveragePrices(window.items)
    {
      if window.IsEmpty() {
        return MIN_GAS_PRICES;
      }
      var sum := SumGasPrices(window.Iter());
      var n := window.Len();
      r := GasPrices(DivCeil(sum.eth, n), DivCeil(sum.strk, n));
    }
  }

  // ----- The behaviour fixed by the unit tests -----

  /**
   * Filling a buffer of five with 0..4 keeps all five in order; pushing 5..9 then evicts
   * 0..4 in turn.
   */
  method BufferSizeLimit() returns (len: nat, contents: seq<nat>, removed: seq<Option<nat>>)
    ensures len == 5 && contents == [0, 1, 2, 3, 4]
    ensures |removed| == 5 && forall i :: 0 <= i < 5 ==> removed[i] == Some(i)
  {
    var buffer := new SlidingWindowBuffer<nat>(5);
    var value := 0;
    while value < 5
      invariant 0 <= value <= 5
      invariant buffer.Valid() && buffer.cap == 5
      invariant buffer.items == Counting(0, value)
    {
      var _ := buffer.Push(value);
      CountingSnoc(0, value);
      value := value + 1;
    }
    len := buffer.Len();
    contents := buffer.Iter();
    assert contents == [0, 1, 2, 3, 4];
    removed := [];
    var i := 5;
    while i < 10
      invariant 5 <= i <= 10
      invariant buffer.Valid() && buffer.cap == 5
      invariant buffer.items == Counting(i - 5, 5)
      invariant |removed| == i - 5 && forall j :: 0 <= j < i - 5 ==> removed[j] == Some(j)
    {
      var out := buffer.Push(i);
      CountingShift(i - 5, 5);
      removed := removed + [out];
      i := i + 1;
    }
  }

  /** The numbers `lo` to `lo + n - 1`, in order. */
  function Counting(lo: nat, n: nat): (s: seq<nat>)
    ensures |s| == n && forall j :: 0 <= j < n ==> s[j] == lo + j
  {
    seq(n, (j: nat) => lo + j)
  }

  lemma CountingSnoc(lo: nat, n: nat)
    ensures Counting(lo, n) + [lo + n] == Counting(lo, n + 1)
  {
  }

  lemma CountingShift(lo: nat, n: nat)
    requires n > 0
    ensures Counting(lo, n)[1..] + [lo + n] == Counting(lo + 1, n)
  {
  }

  /** The averages the unit tests expect, ceiling division included. */
  lemma AverageExamples()
    ensures AveragePrices([]) == MIN_GAS_PRICES
    ensures AveragePrices([GasPrices(100, 200)]) == GasPrices(100, 200)
    ensures AveragePrices([GasPrices(100, 150), GasPrices(200, 250), GasPrices(300, 350)]) == GasPrices(200, 250)
    ensures AveragePrices([GasPrices(10, 11), GasPrices(20, 22)]) == GasPrices(15, 17)
    ensures var half := U128_MAX / 2;
            AveragePrices([GasPrices(half, half), MIN_GAS_PRICES]) == GasPrices((half + 2) / 2, (half + 2) / 2)
  {
    var three := [GasPrices(100, 150), GasPrices(200, 250), GasPrices(300, 350)];
    assert three[..2] == [GasPrices(100, 150), GasPrices(200, 250)];
    assert three[..2][..1] == [GasPrices(100, 150)];
    var two := [GasPrices(10, 11), GasPrices(20, 22)];
    assert two[..1] == [GasPrices(10, 11)];
    var half := U128_MAX / 2;
    var large := [GasPrices(half, half), MIN_GAS_PRICES];
    assert large[..1] == [GasPrices(half, half)];
  }
}
