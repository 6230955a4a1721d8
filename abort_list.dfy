/** The ordered abort-condition evaluator of the propagator.

    An abort list is an ordered pack of termination conditions. It is
    evaluated as a short-circuiting OR in declaration order: the first
    condition that answers true ends the evaluation, and an empty list
    never aborts. Each condition has one of two call shapes, fixed when the
    list is composed: it is called with the propagation cache alone, or with
    the slice of the result bundle produced by its declared observer and the
    cache. Conditions receive the cache by reference, so a condition may
    leave it changed for the conditions after it; the evaluator itself only
    forwards it.
 */
module AbortList {

  /** Names an observer; a result-consuming condition declares the observer
      whose result slice it reads. */
  type ObserverTag = nat

  /** An abort condition, with its call shape fixed at composition time. */
  datatype Condition =
    | CacheOnly(id: nat)
    | UsesResult(id: nat, observer: ObserverTag)
  {
    /** The capability flag: does this condition consume a result slice? */
    predicate UsesResultType() { UsesResult? }
  }

  /** The result bundle: one result slice per observer, looked up by tag. */
  type ResultBundle<S> = map<ObserverTag, S>

  /** What a condition is called with: the cache alone, or a result slice and the cache. */
  datatype Call<C, S> =
    | CacheCall(id: nat, cache: C)
    | ResultCall(id: nat, slice: S, cache: C)

  /** What a condition answers: whether to abort, and the cache as it leaves it. */
  datatype Verdict<C> = Verdict(abort: bool, cache: C)

  /** One entry of an invocation log: the position of the condition called, and the call. */
  datatype Invocation<C, S> = Invocation(index: nat, call: Call<C, S>)

  /** How the composed conditions behave: the verdict a condition gives to a call. */
  type Behaviour<!C, !S> = Call<C, S> -> Verdict<C>

  /** The bundle holds a slice for the observer of every result-consuming
      condition (in the source a missing slice does not compile). */
  predicate Provides<S>(r: ResultBundle<S>, conds: seq<Condition>)
  {
    forall i :: 0 <= i < |conds| && conds[i].UsesResult? ==> conds[i].observer in r
  }

  lemma ProvidesTail<S>(r: ResultBundle<S>, conds: seq<Condition>)
    requires |conds| > 0 && Provides(r, conds)
    ensures Provides(r, conds[1..])
  {
    forall i | 0 <= i < |conds[1..]| && conds[1..][i].UsesResult?
      ensures conds[1..][i].observer in r
    {
      assert conds[1..][i] == conds[i + 1];
    }
  }

  /** The call the caller helper builds for condition `c`: a cache-only
      condition gets the cache alone, a result-consuming one gets the slice
      of its own observer together with the cache. */
  function CallFor<C, S>(c: Condition, r: ResultBundle<S>, cache: C): (call: Call<C, S>)
    requires c.UsesResult? ==> c.observer in r
    ensures call.id == c.id && call.cache == cache
    ensures call.CacheCall? <==> !c.UsesResultType()
    ensures call.ResultCall? ==> c.UsesResult? && call.slice == r[c.observer]
  {
    if c.UsesResultType() then ResultCall(c.id, r[c.observer], cache)
    else CacheCall(c.id, cache)
  }

  /** Invokes one condition through the caller shape its flag selects. */
  function Caller<C, S>(c: Condition, r: ResultBundle<S>, cache: C, eval: Behaviour<C, S>): Verdict<C>
    requires c.UsesResult? ==> c.observer in r
  {
    eval(CallFor(c, r, cache))
  }

  /** The evaluator: the empty list, the single (last) condition, and a head
      condition OR-ed, short-circuit, with the evaluation of the others. */
  function Check<C, S>(conds: seq<Condition>, r: ResultBundle<S>, cache: C, eval: Behaviour<C, S>): (v: Verdict<C>)
    requires Provides(r, conds)
    ensures conds == [] ==> !v.abort && v.cache == cache
    decreases |conds|
  {
    if |conds| == 0 then Verdict(false, cache)
    else if |conds| == 1 then Caller(conds[0], r, cache, eval)
    else
      var head := Caller(conds[0], r, cache, eval);
      if head.abort then head
      else
        ProvidesTail(r, conds);
        Check(conds[1..], r, head.cache, eval)
  }

  // ---------------------------------------------------------------------
  // Reference definition: every condition evaluated in order, no short cut.
  // ---------------------------------------------------------------------

  /** The cache as the first `i` conditions leave it when each is called in
      turn with the cache the previous one left. */
  ghost function CacheBefore<C, S>(conds: seq<Condition>, r: ResultBundle<S>, cache: C, eval: Behaviour<C, S>, i: nat): C
    requires Provides(r, conds) && i <= |conds|
    decreases i
  {
    if i == 0 then cache
    else Caller(conds[i - 1], r, CacheBefore(conds, r, cache, eval, i - 1), eval).cache
  }

  /** The call condition `i` receives when it is reached. */
  ghost function CallAt<C, S>(conds: seq<Condition>, r: ResultBundle<S>, cache: C, eval: Behaviour<C, S>, i: nat): Call<C, S>
    requires Provides(r, conds) && i < |conds|
  {
    CallFor(conds[i], r, CacheBefore(conds, r, cache, eval, i))
  }

  /** Condition `i`, when reached, answers "abort". */
  ghost predicate AbortsAt<C, S>(conds: seq<Condition>, r: ResultBundle<S>, cache: C, eval: Behaviour<C, S>, i: nat)
    requires Provides(r, conds) && i < |conds|
  {
    eval(CallAt(conds, r, cache, eval, i)).abort
  }

  /** The position of the first condition at or after `from` that answers
      "abort", or `|conds|` when none does. */
  ghost function FirstAbortFrom<C, S>(conds: seq<Condition>, r: ResultBundle<S>, cache: C, eval: Behaviour<C, S>, from: nat): (k: nat)
    requires Provides(r, conds) && from <= |conds|
    ensures from <= k <= |conds|
    ensures k < |conds| ==> AbortsAt(conds, r, cache, eval, k)
    ensures forall j :: from <= j < k ==> !AbortsAt(conds, r, cache, eval, j)
    decreases |conds| - from
  {
    if from == |conds| then from
    else if AbortsAt(conds, r, cache, eval, from) then from
    else FirstAbortFrom(conds, r, cache, eval, from + 1)
  }

  ghost function FirstAbort<C, S>(conds: seq<Condition>, r: ResultBundle<S>, cache: C, eval: Behaviour<C, S>): nat
    requires Provides(r, conds)
  {
    FirstAbortFrom(conds, r, cache, eval, 0)
  }

  // ---------------------------------------------------------------------
  // Properties of the evaluator
  // ---------------------------------------------------------------------

  /** An empty list answers "do not abort" whatever the bundle and cache. */
  lemma EmptyListNeverAborts<C, S>(r: ResultBundle<S>, cache: C, eval: Behaviour<C, S>)
    ensures Check([], r, cache, eval) == Verdict(false, cache)
  {
  }

  /** A one-condition list answers exactly that condition's verdict. */
  lemma SingleConditionVerdict<C, S>(c: Condition, r: ResultBundle<S>, cache: C, eval: Behaviour<C, S>)
    requires c.UsesResult? ==> c.observer in r
    ensures Check([c], r, cache, eval) == eval(CallFor(c, r, cache))
  {
    assert Provides(r, [c]);
  }

  /** The head condition is called first, on the incoming cache; the rest of
      the list is evaluated only when the head does not abort, on the cache
      the head left; the answer is head OR rest. */
  lemma HeadOrRest<C, S>(conds: seq<Condition>, r: ResultBundle<S>, cache: C, eval: Behaviour<C, S>)
    requires |conds| > 0 && Provides(r, conds)
    ensures Provides(r, conds[1..])
    ensures var head := eval(CallFor(conds[0], r, cache));
            Check(conds, r, cache, eval) ==
              if head.abort then head else Check(conds[1..], r, head.cache, eval)
    ensures var head := eval(CallFor(conds[0], r, cache));
            Check(conds, r, cache, eval).abort == (head.abort || Check(conds[1..], r, head.cache, eval).abort)
  {
    ProvidesTail(r, conds);
  }

  /** Dropping the first condition shifts the reference caches by one. */
  lemma {:induction false} CacheBeforeTail<C, S>(conds: seq<Condition>, r: ResultBundle<S>, cache: C, eval: Behaviour<C, S>, i: nat)
    requires |conds| > 0 && Provides(r, conds) && 0 < i <= |conds|
    ensures Provides(r, conds[1..])
    ensures CacheBefore(conds, r, cache, eval, i)
         == CacheBefore(conds[1..], r, Caller(conds[0], r, cache, eval).cache, eval, i - 1)
    decreases i
  {
    ProvidesTail(r, conds);
    if i > 1 {
      CacheBeforeTail(conds, r, cache, eval, i - 1);
      assert conds[1..][i - 2] == conds[i - 1];
    }
  }

  /** When none of the first `i` conditions aborts, the evaluation of the
      whole list is the evaluation of the rest on the cache they left. */
  lemma {:induction false} SkipNonAborting<C, S>(conds: seq<Condition>, r: ResultBundle<S>, cache: C, eval: Behaviour<C, S>, i: nat)
    requires Provides(r, conds) && i <= |conds|
    requires forall j :: 0 <= j < i ==> !AbortsAt(conds, r, cache, eval, j)
    ensures Provides(r, conds[i..])
    ensures Check(conds, r, cache, eval) == Check(conds[i..], r, CacheBefore(conds, r, cache, eval, i), eval)
    decreases i
  {
    if i == 0 {
      assert conds[0..] == conds;
    } else {
      SkipNonAborting(conds, r, cache, eval, i - 1);
      var rest := conds[i - 1..];
      HeadOrRest(rest, r, CacheBefore(conds, r, cache, eval, i - 1), eval);
      assert rest[0] == conds[i - 1];
      assert rest[1..] == conds[i..];
      assert !AbortsAt(conds, r, cache, eval, i - 1);
    }
  }

  /** The evaluator stops at the first aborting condition: it answers "abort"
      with the cache that condition left, or, when no condition aborts,
      "do not abort" with the cache the last condition left. */
  lemma CheckStopsAtFirstAbort<C, S>(conds: seq<Condition>, r: ResultBundle<S>, cache: C, eval: Behaviour<C, S>)
    requires Provides(r, conds)
    ensures var k := FirstAbort(conds, r, cache, eval);
            Check(conds, r, cache, eval) ==
              if k < |conds| then Verdict(true, CacheBefore(conds, r, cache, eval, k + 1))
              else Verdict(false, CacheBefore(conds, r, cache, eval, |conds|))
  {
    var k := FirstAbort(conds, r, cache, eval);
    SkipNonAborting(conds, r, cache, eval, k);
    if k < |conds| {
      HeadOrRest(conds[k..], r, CacheBefore(conds, r, cache, eval, k), eval);
      assert conds[k..][0] == conds[k];
    } else {
      assert conds[k..] == [];
    }
  }

  /** The evaluator answers "abort" exactly when some condition, reached in
      order, answers "abort": it is the OR of the conditions. */
  lemma CheckIsDisjunction<C, S>(conds: seq<Condition>, r: ResultBundle<S>, cache: C, eval: Behaviour<C, S>)
    requires Provides(r, conds)
    ensures Check(conds, r, cache, eval).abort <==>
            exists i :: 0 <= i < |conds| && AbortsAt(conds, r, cache, eval, i)
  {
    CheckStopsAtFirstAbort(conds, r, cache, eval);
  }

  /** The call shape of a condition depends only on its capability flag,
      never on the bundle or the cache it is called with. */
  lemma ShapeFixedByFlag<C, S>(c: Condition, r1: ResultBundle<S>, cache1: C, r2: ResultBundle<S>, cache2: C)
    requires c.UsesResult? ==> c.observer in r1 && c.observer in r2
    ensures CallFor(c, r1, cache1).CacheCall? == CallFor(c, r2, cache2).CacheCall? == c.CacheOnly?
  {
  }

  /** The verdict of the evaluator depends on the bundle only through the
      slices of the observers its result-consuming conditions declare: two
      bundles that agree on those give the same answer and the same cache.
      In particular a list of cache-only conditions ignores the bundle. */
  lemma {:induction false} CheckReadsOnlyDeclaredSlices<C, S>(conds: seq<Condition>, r1: ResultBundle<S>, r2: ResultBundle<S>, cache: C, eval: Behaviour<C, S>)
    requires Provides(r1, conds) && Provides(r2, conds)
    requires forall i :: 0 <= i < |conds| && conds[i].UsesResult? ==> r1[conds[i].observer] == r2[conds[i].observer]
    ensures Check(conds, r1, cache, eval) == Check(conds, r2, cache, eval)
    decreases |conds|
  {
    if |conds| > 0 {
      HeadOrRest(conds, r1, cache, eval);
      HeadOrRest(conds, r2, cache, eval);
      assert CallFor(conds[0], r1, cache) == CallFor(conds[0], r2, cache);
      var head := eval(CallFor(conds[0], r1, cache));
      if !head.abort {
        forall i | 0 <= i < |conds[1..]| && conds[1..][i].UsesResult?
          ensures r1[conds[1..][i].observer] == r2[conds[1..][i].observer]
        {
          assert conds[1..][i] == conds[i + 1];
        }
        CheckReadsOnlyDeclaredSlices(conds[1..], r1, r2, head.cache, eval);
      }
    }
  }

  // ---------------------------------------------------------------------
  // An imperative twin that logs the conditions it invokes
  // ---------------------------------------------------------------------

  /** Evaluates the list in a loop, logging every condition it calls. It
      gives the same answer and cache as `Check`; it invokes exactly the
      conditions 0..k, where k is the first that aborts (all of them when
      none does), in declaration order, each with the call its flag selects. */
  method Evaluate<C, S>(conds: seq<Condition>, r: ResultBundle<S>, cache: C, eval: Behaviour<C, S>)
    returns (abort: bool, cacheOut: C, log: seq<Invocation<C, S>>)
    requires Provides(r, conds)
    ensures Verdict(abort, cacheOut) == Check(conds, r, cache, eval)
    ensures abort <==> FirstAbort(conds, r, cache, eval) < |conds|
    ensures |log| == if abort then FirstAbort(conds, r, cache, eval) + 1 else |conds|
    ensures forall j :: 0 <= j < |log| ==> log[j] == Invocation(j, CallAt(conds, r, cache, eval, j))
  {
    abort, cacheOut, log := false, cache, [];
    var i := 0;
    while i < |conds| && !abort
      invariant 0 <= i <= |conds|
      invariant |log| == i
      invariant cacheOut == CacheBefore(conds, r, cache, eval, i)
      invariant forall j :: 0 <= j < i ==> log[j] == Invocation(j, CallAt(conds, r, cache, eval, j))
      invariant abort ==> 0 < i && AbortsAt(conds, r, cache, eval, i - 1)
      invariant forall j :: 0 <= j < (if abort then i - 1 else i) ==> !AbortsAt(conds, r, cache, eval, j)
    {
      var call := CallFor(conds[i], r, cacheOut);
      var answer := eval(call);
      log := log + [Invocation(i, call)];
      abort, cacheOut := answer.abort, answer.cache;
      i := i + 1;
    }
    CheckStopsAtFirstAbort(conds, r, cache, eval);
    var k := FirstAbort(conds, r, cache, eval);
    if abort {
      assert AbortsAt(conds, r, cache, eval, i - 1);
      assert k <= i - 1;
      assert AbortsAt(conds, r, cache, eval, k);
    } else {
      assert forall j :: 0 <= j < |conds| ==> !AbortsAt(conds, r, cache, eval, j);
    }
  }
}
