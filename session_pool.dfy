/** The recycling pool of simple_session_factory as values: one step function per
    operation of the factory (create, release), the list operation `erase` that
    create relies on, and the properties of the pool that any sequence of calls keeps.
    The class in simple_session_factory.dfy is specified by these functions. */
module SessionPool {

  datatype Option<+T> = None | Some(value: T)

  /** The error code `create` hands back: the default (success) code, or
      errc::not_enough_memory. */
  datatype ErrorCode = Success | NotEnoughMemory

  /** What constructing a brand-new session yields: a session, or std::bad_alloc. */
  datatype Construction<+S> = Constructed(session: S) | OutOfMemory

  /** Everything one call of `create` produces: the returned handle (None is the
      null session_ptr), the error out-parameter, and the pool afterwards. */
  datatype CreateOutcome<S> = CreateOutcome(session: Option<S>, error: ErrorCode, recycled: seq<S>)

  /** No session is linked into the pool twice. */
  predicate Distinct<S(==)>(s: seq<S>)
  {
    forall i, j | 0 <= i < j < |s| :: s[i] != s[j]
  }

  /** Unlinks `x` from the pool by identity: every entry equal to `x` goes, the
      others stay in order. */
  function Erase<S(==)>(s: seq<S>, x: S): (r: seq<S>)
    ensures x !in r
    ensures forall i | 0 <= i < |r| :: r[i] in s
    ensures forall i | 0 <= i < |s| :: s[i] != x ==> s[i] in r
    ensures |r| <= |s|
    ensures x !in s ==> r == s
  {
    if s == [] then []
    else if s[0] == x then Erase(s[1..], x)
    else [s[0]] + Erase(s[1..], x)
  }

  /** In a pool without duplicates, erasing the front entry by identity is the
      same as dropping the head of the list. */
  lemma EraseFrontOfDistinct<S>(s: seq<S>)
    requires Distinct(s) && s != []
    ensures Erase(s, s[0]) == s[1..]
  {
  }

  /** In a pool without duplicates, erasing any entry by identity unlinks exactly
      that entry: the others stay, in their order, and the pool is one shorter. */
  lemma {:induction false} EraseKeepsOrder<S>(s: seq<S>, i: nat)
    requires Distinct(s) && i < |s|
    ensures Erase(s, s[i]) == s[..i] + s[i + 1..]
    ensures |Erase(s, s[i])| == |s| - 1
  {
    if i == 0 {
      EraseFrontOfDistinct(s);
    } else {
      var tail, x := s[1..], s[i];
      assert tail[i - 1] == x;
      assert s[0] != x;
      assert Distinct(tail) by {
        forall a, b | 0 <= a < b < |tail|
          ensures tail[a] != tail[b]
        {
          assert tail[a] == s[a + 1] && tail[b] == s[b + 1];
        }
      }
      EraseKeepsOrder(tail, i - 1);
      assert Erase(s, x) == [s[0]] + Erase(tail, x);
      assert [s[0]] + (tail[..i - 1] + tail[i..]) == s[..i] + s[i + 1..];
    }
  }

  /** One call of `create(config, error)` on a pool `recycled`; `construct` stands
      for constructing a session from `config`, which may run out of memory. As a
      pure function it does not make each constructed session a new identity:
      the class SessionFactory tracks that. A handle handed out is no longer
      pooled. */
  function CreateStep<S(==), C>(recycled: seq<S>, config: C, construct: C -> Construction<S>): (r: CreateOutcome<S>)
    ensures |r.recycled| <= |recycled|
    ensures r.error == Success <==> r.session.Some?
    ensures r.session.None? ==> r.recycled == recycled
    ensures Distinct(recycled) ==> Distinct(r.recycled)
    ensures Distinct(recycled) && r.session.Some? ==> r.session.value !in r.recycled
  {
    if recycled != [] then
      CreateOutcome(Some(recycled[0]), Success, Erase(recycled, recycled[0]))
    else
      match construct(config)
      case Constructed(s) => CreateOutcome(Some(s), Success, recycled)
      case OutOfMemory => CreateOutcome(None, NotEnoughMemory, recycled)
  }

  /** One call of `release(session)` on a pool `recycled` whose capacity is
      `maxRecycled`: the new pool. */
  function ReleaseStep<S(==)>(recycled: seq<S>, maxRecycled: nat, session: S): (r: seq<S>)
    ensures |recycled| <= maxRecycled ==> |r| <= maxRecycled
    ensures r == recycled || r == [session] + recycled
    ensures Distinct(recycled) && session !in recycled ==> Distinct(r)
  {
    if maxRecycled > |recycled| then [session] + recycled else recycled
  }

  /** A non-empty pool hands out its front entry (the one released last), the
      pool becomes its tail, and neither the configuration nor the constructor
      has any say: the pooled handle is returned as it is. */
  lemma CreateReusesFront<S, C>(recycled: seq<S>, config: C, construct: C -> Construction<S>,
                                otherConfig: C, otherConstruct: C -> Construction<S>)
    requires Distinct(recycled) && recycled != []
    ensures CreateStep(recycled, config, construct) == CreateOutcome(Some(recycled[0]), Success, recycled[1..])
    ensures CreateStep(recycled, config, construct) == CreateStep(recycled, otherConfig, otherConstruct)
  {
  }

  /** An empty pool makes `create` construct a session from `config`: on success
      that session is returned with Success, on memory exhaustion the null handle
      with NotEnoughMemory; either way the pool stays empty. */
  lemma CreateConstructsWhenEmpty<S, C>(config: C, construct: C -> Construction<S>)
    ensures construct(config).Constructed? ==>
      CreateStep([], config, construct) == CreateOutcome(Some(construct(config).session), Success, [])
    ensures construct(config).OutOfMemory? ==>
      CreateStep([], config, construct) == CreateOutcome(None, NotEnoughMemory, [])
  {
  }

  /** A failing `create` reports NotEnoughMemory, and that happens only when the
      pool was empty and construction ran out of memory; the pool is untouched. */
  lemma CreateFailsOnlyOnOutOfMemory<S, C>(recycled: seq<S>, config: C, construct: C -> Construction<S>)
    ensures CreateStep(recycled, config, construct).error == NotEnoughMemory <==>
      recycled == [] && construct(config).OutOfMemory?
    ensures CreateStep(recycled, config, construct).error == NotEnoughMemory ==>
      CreateStep(recycled, config, construct).recycled == recycled
  {
  }

  /** `release` keeps the session, at the front, exactly when the pool is below
      its capacity; otherwise the session is dropped and the pool is unchanged.
      It never fails. */
  lemma ReleaseKeepsOnlyBelowCapacity<S>(recycled: seq<S>, maxRecycled: nat, session: S)
    ensures |recycled| < maxRecycled ==>
      ReleaseStep(recycled, maxRecycled, session) == [session] + recycled
    ensures |recycled| < maxRecycled ==>
      |ReleaseStep(recycled, maxRecycled, session)| == |recycled| + 1
    ensures |recycled| >= maxRecycled ==>
      ReleaseStep(recycled, maxRecycled, session) == recycled
  {
  }

  /** LIFO round trip: below capacity, releasing a session and then creating one
      gives that same session back and restores the pool as it was. */
  lemma ReleaseThenCreate<S, C>(recycled: seq<S>, maxRecycled: nat, session: S,
                                config: C, construct: C -> Construction<S>)
    requires Distinct(recycled) && session !in recycled && |recycled| < maxRecycled
    ensures CreateStep(ReleaseStep(recycled, maxRecycled, session), config, construct)
      == CreateOutcome(Some(session), Success, recycled)
  {
  }

  function Reverse<T>(s: seq<T>): (r: seq<T>)
    ensures |r| == |s|
  {
    if s == [] then [] else Reverse(s[1..]) + [s[0]]
  }

  /** The pool after `release` is called on each session of `sessions`, first to last. */
  function ReleaseAll<S(==)>(recycled: seq<S>, maxRecycled: nat, sessions: seq<S>): (r: seq<S>)
    decreases |sessions|
  {
    if sessions == [] then recycled
    else ReleaseAll(ReleaseStep(recycled, maxRecycled, sessions[0]), maxRecycled, sessions[1..])
  }

  /** `n` calls of `create` with the same configuration and constructor: the
      handles in the order they were returned (a null handle is skipped), and the
      pool afterwards. The lemmas use it only while the pool serves every call. */
  function CreateAll<S(==), C>(recycled: seq<S>, n: nat, config: C, construct: C -> Construction<S>): (r: (seq<S>, seq<S>))
    decreases n
  {
    if n == 0 then ([], recycled)
    else
      var step := CreateStep(recycled, config, construct);
      var rest := CreateAll(step.recycled, n - 1, config, construct);
      (if step.session.Some? then [step.session.value] + rest.0 else rest.0, rest.1)
  }

  /** With room for all of them, releasing `sessions` one after the other stacks
      them on the pool with the last one released at the front. */
  lemma {:induction false} ReleaseAllBelowCapacity<S>(recycled: seq<S>, maxRecycled: nat, sessions: seq<S>)
    requires |recycled| + |sessions| <= maxRecycled
    ensures ReleaseAll(recycled, maxRecycled, sessions) == Reverse(sessions) + recycled
    decreases |sessions|
  {
    if sessions != [] {
      var pushed := [sessions[0]] + recycled;
      assert ReleaseStep(recycled, maxRecycled, sessions[0]) == pushed;
      assert ReleaseAll(recycled, maxRecycled, sessions) == ReleaseAll(pushed, maxRecycled, sessions[1..]);
      ReleaseAllBelowCapacity(pushed, maxRecycled, sessions[1..]);
      var rest := Reverse(sessions[1..]);
      assert Reverse(sessions) == rest + [sessions[0]];
      assert rest + pushed == (rest + [sessions[0]]) + recycled;
    }
  }

  /** Taking `n` sessions out of a pool that holds at least `n` hands out its
      first `n` entries, front first, and leaves the rest. */
  lemma {:induction false} CreateAllFromPool<S, C>(recycled: seq<S>, n: nat, config: C, construct: C -> Construction<S>)
    requires Distinct(recycled) && n <= |recycled|
    ensures CreateAll(recycled, n, config, construct) == (recycled[..n], recycled[n..])
  {
    if n > 0 {
      var tail := recycled[1..];
      CreateReusesFront(recycled, config, construct, config, construct);
      assert CreateStep(recycled, config, construct).recycled == tail;
      var rest := CreateAll(tail, n - 1, config, construct);
      assert CreateAll(recycled, n, config, construct) == ([recycled[0]] + rest.0, rest.1);
      CreateAllFromPool(tail, n - 1, config, construct);
      assert [recycled[0]] + tail[..n - 1] == recycled[..n];
      assert tail[n - 1..] == recycled[n..];
    }
  }

  lemma {:induction false} DistinctReverse<T>(s: seq<T>)
    requires Distinct(s)
    ensures Distinct(Reverse(s))
    ensures forall x :: x in Reverse(s) <==> x in s
  {
    if s != [] {
      DistinctReverse(s[1..]);
      assert s[0] !in s[1..] by {
        forall k | 0 <= k < |s| - 1
          ensures s[1..][k] != s[0]
        {
          assert s[1..][k] == s[k + 1];
        }
      }
      forall x
        ensures x in Reverse(s) <==> x in s
      {
        assert x in s <==> x == s[0] || x in s[1..];
      }
    }
  }

  lemma DistinctConcat<T>(a: seq<T>, b: seq<T>)
    requires Distinct(a) && Distinct(b)
    requires forall x :: x in a ==> x !in b
    ensures Distinct(a + b)
  {
    forall i, j | 0 <= i < j < |a + b|
      ensures (a + b)[i] != (a + b)[j]
    {
      if j >= |a| && i < |a| {
        assert (a + b)[i] in a;
        assert (a + b)[j] == b[j - |a|];
      }
    }
  }

  /** LIFO over many calls: below capacity, releasing distinct `sessions` that are
      not pooled and then calling `create` as many times returns them in reverse
      order of release and restores the original pool. */
  lemma LifoRoundTrip<S, C>(recycled: seq<S>, maxRecycled: nat, sessions: seq<S>,
                            config: C, construct: C -> Construction<S>)
    requires Distinct(recycled) && Distinct(sessions)
    requires forall s :: s in sessions ==> s !in recycled
    requires |recycled| + |sessions| <= maxRecycled
    ensures CreateAll(ReleaseAll(recycled, maxRecycled, sessions), |sessions|, config, construct)
      == (Reverse(sessions), recycled)
  {
    ReleaseAllBelowCapacity(recycled, maxRecycled, sessions);
    DistinctReverse(sessions);
    DistinctConcat(Reverse(sessions), recycled);
    var pool := Reverse(sessions) + recycled;
    CreateAllFromPool(pool, |sessions|, config, construct);
    assert pool[..|sessions|] == Reverse(sessions);
    assert pool[|sessions|..] == recycled;
  }

  /** One call on the factory, as a client would issue it. */
  datatype Call<S, !C> = CreateCall(config: C, construct: C -> Construction<S>) | ReleaseCall(session: S)

  /** The pool after a sequence of calls. */
  function Run<S(==), C>(recycled: seq<S>, maxRecycled: nat, calls: seq<Call<S, C>>): (r: seq<S>)
    decreases |calls|
  {
    if calls == [] then recycled
    else
      var next := match calls[0]
        case CreateCall(config, construct) => CreateStep(recycled, config, construct).recycled
        case ReleaseCall(session) => ReleaseStep(recycled, maxRecycled, session);
      Run(next, maxRecycled, calls[1..])
  }

  /** Capacity invariant: whatever the calls, a pool that starts within its
      capacity stays within it. */
  lemma {:induction false} RunKeepsCapacity<S, C>(recycled: seq<S>, maxRecycled: nat, calls: seq<Call<S, C>>)
    requires |recycled| <= maxRecycled
    ensures |Run(recycled, maxRecycled, calls)| <= maxRecycled
    decreases |calls|
  {
    if calls != [] {
      match calls[0]
      case CreateCall(config, construct) =>
        RunKeepsCapacity(CreateStep(recycled, config, construct).recycled, maxRecycled, calls[1..]);
      case ReleaseCall(session) =>
        RunKeepsCapacity(ReleaseStep(recycled, maxRecycled, session), maxRecycled, calls[1..]);
    }
  }

  /** With capacity 2: release S1, release S2, and the next create returns S2. */
  lemma LifoReuseExample<S, C>(s1: S, s2: S, config: C, construct: C -> Construction<S>)
    requires s1 != s2
    ensures ReleaseAll([], 2, [s1, s2]) == [s2, s1]
    ensures CreateStep([s2, s1], config, construct) == CreateOutcome(Some(s2), Success, [s1])
  {
    assert ReleaseStep([], 2, s1) == [s1];
    assert ReleaseStep([s1], 2, s2) == [s2, s1];
    assert [s1, s2][1..] == [s2];
    assert [s2][1..] == [];
    assert ReleaseAll([s1], 2, [s2]) == ReleaseAll([s2, s1], 2, []);
    CreateReusesFront([s2, s1], config, construct, config, construct);
  }

  /** With capacity 2 and the pool [S2, S1], releasing S3 keeps the pool as it is. */
  lemma OverflowDropExample<S>(s1: S, s2: S, s3: S)
    ensures ReleaseAll([], 2, [s1, s2, s3]) == [s2, s1]
  {
    assert ReleaseStep([], 2, s1) == [s1];
    assert ReleaseStep([s1], 2, s2) == [s2, s1];
    assert ReleaseStep([s2, s1], 2, s3) == [s2, s1];
    assert [s1, s2, s3][1..] == [s2, s3];
    assert [s2, s3][1..] == [s3];
    assert [s3][1..] == [];
    assert ReleaseAll([s2, s1], 2, [s3]) == ReleaseAll([s2, s1], 2, []);
    assert ReleaseAll([s1], 2, [s2, s3]) == ReleaseAll([s2, s1], 2, [s3]);
  }
}
