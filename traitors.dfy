/** The trait-dispatch and iterator exercise of traitors/src/lib.rs: the unit
    struct `F` implementing `Foo`, `do_thing`, and `combine_vecs`, whose result
    is `v` then `u`, cycled forever. */
module Traitors {
  import opened Wrappers
  import opened Ints

  // ---------------------------------------------------------------------------
  // F and its `Foo` impl

  /** The largest i32 whose square is still an i32. */
  const MaxRoot: i32 := 46340

  /** The bound on `foo`'s argument is exactly "the square does not overflow". */
  lemma MaxRootIsExact()
    ensures InI32(MaxRoot as int * MaxRoot as int)
    ensures !InI32((MaxRoot as int + 1) * (MaxRoot as int + 1))
  {
  }

  /** Squaring is monotone in the magnitude. */
  lemma SquareBound(a: int, m: nat)
    requires 0 - (m as int) <= a <= m
    ensures 0 <= a * a <= m * m
  {
    var b := if a < 0 then -a else a;
    assert a * a == b * b;
    assert b * b <= b * m;
    assert b * m <= m * m;
  }

  datatype F = F {

    /** `Foo::foo` for F: the square of its argument. The square fits in i32
        exactly when |arg| <= 46340, which callers must keep to. */
    function Foo(arg: i32): (r: i32)
      requires -MaxRoot <= arg <= MaxRoot
      ensures r as int == arg as int * arg as int
      ensures r >= 0
    {
      SquareBound(arg as int, MaxRoot as int);
      (arg as int * arg as int) as i32
    }

    /** `Foo::bar` for F: a displayable value that renders as "hello". */
    function Bar(): string {
      "hello"
    }

    /** `F::bun`: calls foo(3) and renders bar(), discards both, and
        returns itself. */
    function Bun(): (r: F)
      ensures r == this
    {
      var _ := Foo(3);
      var _ := Bar();
      this
    }
  }

  /** `do_thing`: static dispatch to `foo` of whatever implements `Foo`; F is
      the only implementation. */
  function DoThing(fooy: F, count: i32): (r: i32)
    requires -MaxRoot <= count <= MaxRoot
    ensures r as int == count as int * count as int
  {
    fooy.Foo(count)
  }

  /** Squaring forgets the sign. */
  lemma FooEven(f: F, a: i32)
    requires -MaxRoot <= a <= MaxRoot
    ensures f.Foo(a) == f.Foo(-a)
  {
  }

  /** The unit test: do_thing(F, 8) is 64. */
  lemma DoThingEight()
    ensures DoThing(F, 8) == 64
  {
  }

  lemma BarRendersHello(f: F)
    ensures f.Bar() == "hello"
  {
  }

  // ---------------------------------------------------------------------------
  // combine_vecs

  /** The state of `Cycle<Chain<IntoIter, IntoIter>>`: the original iterator's
      remaining items (it is cloned afresh at every wrap-around) and the
      current pass's remaining items. */
  datatype CycleIter<T> = CycleIter(orig: seq<T>, current: seq<T>)

  /** `v.into_iter().chain(u.into_iter()).cycle()` */
  function CombineVecs<T>(v: seq<T>, u: seq<T>): CycleIter<T> {
    CycleIter(v + u, v + u)
  }

  /** `Cycle::next`: take from the current pass; when it is exhausted, start a
      new pass from a clone of the original, which yields nothing if the
      original is empty. */
  function Next<T>(it: CycleIter<T>): (Option<T>, CycleIter<T>) {
    if it.current != [] then (Some(it.current[0]), it.(current := it.current[1..]))
    else if it.orig == [] then (None, it)
    else (Some(it.orig[0]), it.(current := it.orig[1..]))
  }

  /** `Iterator::nth`: the item `i` steps ahead. */
  function Nth<T>(it: CycleIter<T>, i: nat): Option<T>
    decreases i
  {
    match Next(it)
    case (None, _) => None
    case (Some(x), rest) => if i == 0 then Some(x) else Nth(rest, i - 1)
  }

  /** `take(n)` followed by `collect`. */
  function Take<T>(it: CycleIter<T>, n: nat): seq<T>
    decreases n
  {
    if n == 0 then []
    else match Next(it)
      case (None, _) => []
      case (Some(x), rest) => [x] + Take(rest, n - 1)
  }

  /** A cycle that has already yielded `p` items of its current pass. */
  ghost predicate InPass<T>(it: CycleIter<T>, p: nat) {
    && p <= |it.orig|
    && |it.current| == |it.orig| - p
    && forall k :: 0 <= k < |it.current| ==> it.current[k] == it.orig[p + k]
  }

  /** One step of the cycle: from position `p` of a pass it yields
      orig[p mod |orig|], and is then at position p + 1 (or 1 of a new pass). */
  lemma NextInPass<T>(it: CycleIter<T>, p: nat)
    requires InPass(it, p) && it.orig != []
    ensures Next(it).0 == Some(it.orig[p % |it.orig|])
    ensures var q := if p < |it.orig| then p + 1 else 1;
      InPass(Next(it).1, q) && Next(it).1.orig == it.orig
  {
    var o := it.orig;
    var next := Next(it).1;
    if p < |o| {
      ModUnique(p, |o|, 0, p);
      assert it.current[0] == o[p];
      assert next.current == it.current[1..];
      forall k | 0 <= k < |next.current|
        ensures next.current[k] == o[p + 1 + k]
      {
        assert next.current[k] == it.current[k + 1];
      }
    } else {
      ModUnique(p, |o|, 1, 0);
      assert next.current == o[1..];
    }
  }

  /** The item `i` steps ahead of position `p` is orig[(p + i) mod |orig|]; an
      empty cycle yields nothing. */
  lemma {:induction false} NthInPass<T>(it: CycleIter<T>, p: nat, i: nat)
    requires InPass(it, p)
    ensures Nth(it, i) == if it.orig == [] then None else Some(it.orig[(p + i) % |it.orig|])
    decreases i
  {
    var o := it.orig;
    if o != [] {
      NextInPass(it, p);
      if i > 0 {
        var q := if p < |o| then p + 1 else 1;
        NthInPass(Next(it).1, q, i - 1);
        ModShift(p, i, |o|);
      }
    }
  }

  lemma {:induction false} MulAtLeast(k: nat, n: nat)
    requires k >= 1
    ensures k * n >= n
  {
    if k > 1 {
      MulAtLeast(k - 1, n);
      assert k * n == (k - 1) * n + n;
    }
  }

  /** Euclidean division is unique. */
  lemma ModUnique(a: int, n: int, q: int, r: int)
    requires n > 0 && 0 <= r < n && a == q * n + r
    ensures a % n == r
  {
    var q', r' := a / n, a % n;
    assert a == q' * n + r';
    if q > q' {
      assert q * n - q' * n == (q - q') * n;
      MulAtLeast(q - q', n);
    } else if q < q' {
      assert q' * n - q * n == (q' - q) * n;
      MulAtLeast(q' - q, n);
    }
  }

  lemma ModAddPeriod(x: int, n: int)
    requires n > 0
    ensures (x + n) % n == x % n
  {
    assert x == (x / n) * n + x % n;
    ModUnique(x + n, n, x / n + 1, x % n);
  }

  lemma ModShift(p: nat, i: nat, n: nat)
    requires 0 < n && p <= n && i > 0
    ensures ((if p < n then p + 1 else 1) + (i - 1)) % n == (p + i) % n
  {
    if p == n {
      ModAddPeriod(i, n);
    } else {
      assert p + 1 + (i - 1) == p + i;
    }
  }

  /** Item `i` of combine_vecs(v, u) is item i mod (|v| + |u|) of v ++ u; when
      both are empty there are no items at all. */
  lemma CombineVecsNth<T>(v: seq<T>, u: seq<T>, i: nat)
    ensures Nth(CombineVecs(v, u), i) ==
      if |v| + |u| == 0 then None else Some((v + u)[i % (|v| + |u|)])
  {
    NthInPass(CombineVecs(v, u), 0, i);
  }

  /** The first |v| items are v, the next |u| are u, in order. */
  lemma CombineVecsFirstPass<T>(v: seq<T>, u: seq<T>, i: nat)
    requires i < |v| + |u|
    ensures i < |v| ==> Nth(CombineVecs(v, u), i) == Some(v[i])
    ensures |v| <= i ==> Nth(CombineVecs(v, u), i) == Some(u[i - |v|])
  {
    CombineVecsNth(v, u, i);
    ModUnique(i, |v| + |u|, 0, i);
  }

  /** The cycle has period |v| + |u|. */
  lemma CombineVecsPeriodic<T>(v: seq<T>, u: seq<T>, i: nat)
    ensures Nth(CombineVecs(v, u), i + |v| + |u|) == Nth(CombineVecs(v, u), i)
  {
    CombineVecsNth(v, u, i);
    CombineVecsNth(v, u, i + |v| + |u|);
    if |v| + |u| > 0 {
      ModAddPeriod(i, |v| + |u|);
      assert i + |v| + |u| == i + (|v| + |u|);
    }
  }

  /** take(n) from position `p` of a pass. */
  lemma {:induction false} TakeInPass<T>(it: CycleIter<T>, p: nat, n: nat)
    requires InPass(it, p)
    ensures it.orig == [] ==> Take(it, n) == []
    ensures it.orig != [] ==> |Take(it, n)| == n
    ensures forall k :: 0 <= k < |Take(it, n)| ==> Take(it, n)[k] == it.orig[(p + k) % |it.orig|]
    decreases n
  {
    var o := it.orig;
    if o != [] && n > 0 {
      NextInPass(it, p);
      var q := if p < |o| then p + 1 else 1;
      var rest := Next(it).1;
      TakeInPass(rest, q, n - 1);
      var rt := Take(rest, n - 1);
      var t := Take(it, n);
      assert t == [o[p % |o|]] + rt;
      forall k | 0 <= k < |t|
        ensures t[k] == o[(p + k) % |o|]
      {
        if k > 0 {
          assert t[k] == rt[k - 1];
          assert rt[k - 1] == o[(q + (k - 1)) % |o|];
          ModShift(p, k, |o|);
        }
      }
    }
  }

  /** combine_vecs(v, u).take(n) has n items, item k being (v ++ u)[k mod
      (|v| + |u|)]; it is empty when v and u are. */
  lemma CombineVecsTake<T>(v: seq<T>, u: seq<T>, n: nat)
    ensures |v| + |u| == 0 ==> Take(CombineVecs(v, u), n) == []
    ensures |v| + |u| > 0 ==> |Take(CombineVecs(v, u), n)| == n
    ensures forall k :: 0 <= k < |Take(CombineVecs(v, u), n)| ==>
      Take(CombineVecs(v, u), n)[k] == (v + u)[k % (|v| + |u|)]
  {
    TakeInPass(CombineVecs(v, u), 0, n);
  }

  /** One full pass of combine_vecs(v, u) is exactly v followed by u. */
  lemma CombineVecsTakeOnePass<T>(v: seq<T>, u: seq<T>)
    ensures Take(CombineVecs(v, u), |v| + |u|) == v + u
  {
    var n := |v| + |u|;
    var t := Take(CombineVecs(v, u), n);
    CombineVecsTake(v, u, n);
    if n > 0 {
      forall k | 0 <= k < n
        ensures t[k] == (v + u)[k]
      {
        ModUnique(k, n, 0, k);
      }
    }
  }

  function Sum(s: seq<int>): int {
    if s == [] then 0 else s[0] + Sum(s[1..])
  }

  function Doubled(s: seq<int>): (d: seq<int>)
    ensures |d| == |s| && forall k :: 0 <= k < |s| ==> d[k] == 2 * s[k]
  {
    seq(|s|, k requires 0 <= k < |s| => 2 * s[k])
  }

  /** The unit test: eight items of combine_vecs([1,2,3,4], [1,2,3,4]),
      doubled and summed, give 40. */
  lemma CombineVecsTestChain()
    ensures Sum(Doubled(Take(CombineVecs([1, 2, 3, 4], [1, 2, 3, 4]), 8))) == 40
  {
    TakeEightOfTestChain();
    SumDoubledOfTestChain();
  }

  lemma TakeEightOfTestChain()
    ensures Take(CombineVecs([1, 2, 3, 4], [1, 2, 3, 4]), 8) == [1, 2, 3, 4, 1, 2, 3, 4]
  {
    var v, u := [1, 2, 3, 4], [1, 2, 3, 4];
    CombineVecsTakeOnePass(v, u);
    assert v + u == [1, 2, 3, 4, 1, 2, 3, 4];
  }

  lemma SumDoubledOfTestChain()
    ensures Sum(Doubled([1, 2, 3, 4, 1, 2, 3, 4])) == 40
  {
    assert Doubled([1, 2, 3, 4, 1, 2, 3, 4]) == [2, 4, 6, 8, 2, 4, 6, 8];
  }
}
