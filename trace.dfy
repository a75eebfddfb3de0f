/**
 * The set-up paths of the driver (init_icm, alloc_qp_buf) take resources one
 * after another and, when a step fails, give back the ones already taken in
 * the reverse order.  A run is recorded as a sequence of steps, and Held
 * checks the stack discipline: every release gives back the most recently
 * taken resource still held.
 */
module Trace {
  import opened Common

  /** One step of a set-up or teardown path. */
  datatype Step<R> = Acquire(res: R) | Release(res: R)

  /**
   * The resources still held after a sequence of steps, most recent last,
   * or None when a step releases anything but the most recently acquired
   * resource still held.
   */
  function Held<R(==)>(steps: seq<Step<R>>): Option<seq<R>>
  {
    if steps == [] then Some([])
    else
      var before := Held(steps[..|steps| - 1]);
      var s := steps[|steps| - 1];
      if before.None? then None
      else if s.Acquire? then Some(before.value + [s.res])
      else if |before.value| > 0 && before.value[|before.value| - 1] == s.res
      then Some(before.value[..|before.value| - 1])
      else None
  }

  /**
   * Every resource is released as often as it is acquired, whatever the
   * order of the releases: a path that ends Balanced leaks nothing.
   */
  ghost predicate Balanced<R(!new)>(steps: seq<Step<R>>)
  {
    forall r: R :: multiset(steps)[Acquire(r)] == multiset(steps)[Release(r)]
  }

  /** Acquiring the first n resources of order, in order. */
  function AcquireFirst<R>(order: seq<R>, n: nat): (r: seq<Step<R>>)
    requires n <= |order|
    ensures |r| == n && forall i :: 0 <= i < n ==> r[i] == Acquire(order[i])
  {
    if n == 0 then [] else AcquireFirst(order, n - 1) + [Acquire(order[n - 1])]
  }

  /** Releasing the first n resources of order, the last acquired first. */
  function ReleaseFirst<R>(order: seq<R>, n: nat): (r: seq<Step<R>>)
    requires n <= |order|
    ensures |r| == n && forall i :: 0 <= i < n ==> r[i] == Release(order[n - 1 - i])
  {
    if n == 0 then [] else [Release(order[n - 1])] + ReleaseFirst(order, n - 1)
  }

  lemma {:induction false} HeldAcquireFirst<R>(order: seq<R>, n: nat)
    requires n <= |order|
    ensures Held(AcquireFirst(order, n)) == Some(order[..n])
  {
    if n > 0 {
      var a := AcquireFirst(order, n - 1);
      HeldAcquireFirst(order, n - 1);
      assert AcquireFirst(order, n) == a + [Acquire(order[n - 1])];
      HeldAcquire(a, order[n - 1]);
      assert order[..n - 1] + [order[n - 1]] == order[..n];
    }
  }

  /** Acquiring one more resource pushes it on the stack held. */
  lemma HeldAcquire<R>(pre: seq<Step<R>>, x: R)
    requires Held(pre).Some?
    ensures Held(pre + [Acquire(x)]) == Some(Held(pre).value + [x])
  {
    assert (pre + [Acquire(x)])[..|pre|] == pre;
  }

  /** Releasing the first k resources, last first, from a stack that ends in them. */
  lemma {:induction false} HeldReleaseFirst<R>(pre: seq<Step<R>>, order: seq<R>, k: nat, base: seq<R>)
    requires k <= |order|
    requires Held(pre) == Some(base + order[..k])
    ensures Held(pre + ReleaseFirst(order, k)) == Some(base)
    decreases k
  {
    if k == 0 {
      assert pre + ReleaseFirst(order, k) == pre;
      assert base + order[..k] == base;
    } else {
      var u := ReleaseFirst(order, k);
      var pre' := pre + [u[0]];
      assert pre'[..|pre'| - 1] == pre;
      assert (base + order[..k])[..|base| + k - 1] == base + order[..k - 1];
      assert Held(pre') == Some(base + order[..k - 1]);
      HeldReleaseFirst(pre', order, k - 1, base);
      assert u == [u[0]] + ReleaseFirst(order, k - 1);
      assert pre + u == pre' + ReleaseFirst(order, k - 1);
    }
  }

  /**
   * Taking the first n resources holds exactly them, in order; giving them
   * back last first then holds nothing.
   */
  lemma Unwinds<R>(order: seq<R>, n: nat)
    requires n <= |order|
    ensures Held(AcquireFirst(order, n)) == Some(order[..n])
    ensures Held(AcquireFirst(order, n) + ReleaseFirst(order, n)) == Some([])
  {
    HeldAcquireFirst(order, n);
    assert [] + order[..n] == order[..n];
    HeldReleaseFirst(AcquireFirst(order, n), order, n, []);
  }

  /** Taking the first n resources and giving them back, last first, leaks nothing. */
  lemma {:induction false} UnwindBalanced<R(!new)>(order: seq<R>, n: nat)
    requires n <= |order|
    ensures Balanced(AcquireFirst(order, n) + ReleaseFirst(order, n))
  {
    if n > 0 {
      UnwindBalanced(order, n - 1);
      var x := order[n - 1];
      var a, r := AcquireFirst(order, n - 1), ReleaseFirst(order, n - 1);
      assert AcquireFirst(order, n) == a + [Acquire(x)];
      assert ReleaseFirst(order, n) == [Release(x)] + r;

      BalancedAround(a, r, x);
    }
  }

  /** Taking and at once giving back x, between two parts of a balanced run, keeps it balanced. */
  lemma BalancedAround<R(!new)>(a: seq<Step<R>>, r: seq<Step<R>>, x: R)
    requires Balanced(a + r)
    ensures Balanced((a + [Acquire(x)]) + ([Release(x)] + r))
  {
    var m0 := multiset(a + r);
    var m := multiset((a + [Acquire(x)]) + ([Release(x)] + r));
    assert m == m0 + multiset{Acquire(x), Release(x)};
    forall y: R
      ensures m[Acquire(y)] == m[Release(y)]
    {
      assert m0[Acquire(y)] == m0[Release(y)];
    }
  }

  /** Swapping two adjacent steps of a balanced run keeps it balanced. */
  lemma BalancedSwap<R(!new)>(a: seq<Step<R>>, x: Step<R>, y: Step<R>, r: seq<Step<R>>)
    requires Balanced(a + ([x, y] + r))
    ensures Balanced(a + ([y, x] + r))
  {
    var m := multiset(a + ([x, y] + r));
    assert m == multiset(a) + multiset{x, y} + multiset(r);
    assert multiset(a + ([y, x] + r)) == m;
  }
}
