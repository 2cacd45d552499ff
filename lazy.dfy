/** The `lazy` memoiser (`src/lib/lazy.ts`, and its copy in `src/lib/util.ts`).
    `init` may throw and may give a different outcome on each call, so it is
    modelled as the outcome of its `k`-th call: `Some(r)` for a result,
    `None` for a throw. */
module Lazy {
  import opened Wrappers

  /** What the thunk holds after its calls: the cached value (`None` while
      `LAZY_UNINIT`) and how many times `init` has run. */
  datatype Cache<R> = Cache(value: Option<R>, initCalls: nat)

  /** One call of the thunk: a cached value is kept; otherwise `init` runs
      once more and its result, when it returns one, is cached. */
  function Step<R>(init: nat -> Option<R>, c: Cache<R>): Cache<R> {
    if c.value.Some? then c else Cache(init(c.initCalls), c.initCalls + 1)
  }

  /** The cache after `n` calls of a fresh thunk. */
  function After<R>(init: nat -> Option<R>, n: nat): Cache<R>
    decreases n
  {
    if n == 0 then Cache(None, 0) else Step(init, After(init, n - 1))
  }

  /** While no `init` call has returned, every thunk call runs `init` again
      and nothing is cached. */
  lemma {:induction false} AfterAllThrew<R>(init: nat -> Option<R>, n: nat)
    requires forall j :: 0 <= j < n ==> init(j).None?
    ensures After(init, n) == Cache(None, n)
    decreases n
  {
    if n > 0 {
      AfterAllThrew(init, n - 1);
    }
  }

  /** Once the `k`-th `init` call returns (all earlier ones having thrown),
      every later thunk call sees exactly that value and `init` is not run
      again. */
  lemma {:induction false} AfterFirstSuccess<R>(init: nat -> Option<R>, k: nat, n: nat)
    requires k < n
    requires init(k).Some? && forall j :: 0 <= j < k ==> init(j).None?
    ensures After(init, n) == Cache(init(k), k + 1)
    decreases n
  {
    if n == k + 1 {
      AfterAllThrew(init, k);
    } else {
      AfterFirstSuccess(init, k, n - 1);
    }
  }

  /** `init` runs at most once per thunk call, and a value once cached is
      never replaced. */
  lemma {:induction false} CachedSticks<R>(init: nat -> Option<R>, m: nat, n: nat)
    requires m <= n
    ensures After(init, m).initCalls <= m
    ensures After(init, m).value.Some? ==> After(init, n) == After(init, m)
    decreases n
  {
    if m > 0 {
      CachedSticks(init, m - 1, m - 1);
    }
    if m < n {
      CachedSticks(init, m, n - 1);
    }
  }

  /** The thunk `lazy(init)` returns. */
  class Lazy<R> {
    const init: nat -> Option<R>
    var value: Option<R>
    var initCalls: nat
    /** How many times the thunk has been called. */
    ghost var calls: nat

    /** The state is the one `calls` thunk calls produce. */
    ghost predicate Valid()
      reads this
    {
      Cache(value, initCalls) == After(init, calls)
    }

    /** `lazy(init)`: nothing is cached and `init` is not called. */
    constructor (init: nat -> Option<R>)
      ensures this.init == init
      ensures value == None && initCalls == 0 && calls == 0
      ensures Valid()
    {
      this.init := init;
      value := None;
      initCalls := 0;
      calls := 0;
    }

    /** A call of the thunk: `None` when `init` threw (the exception
        propagates and nothing is cached). */
    method Call() returns (r: Option<R>)
      requires Valid()
      modifies this
      ensures Valid() && calls == old(calls) + 1
      ensures Cache(value, initCalls) == Step(init, old(Cache(value, initCalls)))
      ensures r == value
      ensures old(value).Some? ==> r == old(value) && initCalls == old(initCalls)
      ensures old(value).None? ==> r == init(old(initCalls)) && initCalls == old(initCalls) + 1
    {
      if value.None? {
        value := init(initCalls);
        initCalls := initCalls + 1;
      }
      r := value;
      calls := calls + 1;
    }
  }
}
