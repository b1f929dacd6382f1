/** simple_session_factory: hands out sessions, reusing released ones from a bounded
    LIFO pool before constructing new ones. */
module SimpleSessionFactory {
  import opened SessionPool

  /** The factory. `recycled` is the pool of idle sessions, front first (the
      member list recycled_); `maxRecycled` is its capacity (max_recycled_). */
  class SessionFactory<Session(==), Config> {
    const maxRecycled: nat
    var recycled: seq<Session>
    /** Every session this factory has constructed so far. */
    ghost var constructed: set<Session>

    /** The pool never exceeds its capacity and links no session twice. */
    ghost predicate Valid()
      reads this
    {
      |recycled| <= maxRecycled && Distinct(recycled)
    }

    constructor (maxRecycled: nat)
      ensures Valid()
      ensures this.maxRecycled == maxRecycled && recycled == [] && constructed == {}
    {
      this.maxRecycled := maxRecycled;
      recycled := [];
      constructed := {};
    }

    /** Hands out the session released last if there is one, as it is (the
        configuration is not applied to it); otherwise constructs a new session
        from `config` with `construct`, which may run out of memory. A newly
        constructed session is a new object, distinct from every session the
        factory constructed before. */
    method Create(config: Config, construct: Config -> Construction<Session>)
      returns (session: Option<Session>, error: ErrorCode)
      requires Valid()
      requires recycled == [] && construct(config).Constructed? ==>
        construct(config).session !in constructed
      modifies this
      ensures Valid()
      ensures session.Some? ==> session.value !in recycled
      ensures constructed ==
        if old(recycled) == [] && construct(config).Constructed?
        then old(constructed) + {construct(config).session} else old(constructed)
      ensures CreateOutcome(session, error, recycled) == CreateStep(old(recycled), config, construct)
      ensures old(recycled) != [] ==>
        session == Some(old(recycled)[0]) && error == Success && recycled == old(recycled)[1..]
      ensures old(recycled) == [] ==> recycled == []
      ensures old(recycled) == [] && construct(config).Constructed? ==>
        session == Some(construct(config).session) && error == Success
      ensures old(recycled) == [] && construct(config).OutOfMemory? ==>
        session == None && error == NotEnoughMemory
    {
      if recycled != [] {
        var front := recycled[0];
        EraseFrontOfDistinct(recycled);
        recycled := Erase(recycled, front);
        error := Success;
        session := Some(front);
        return;
      }
      match construct(config)
      case Constructed(s) =>
        constructed := constructed + {s};
        error := Success;
        session := Some(s);
      case OutOfMemory =>
        error := NotEnoughMemory;
        session := None;
    }

    /** Takes a session back: it is pushed on the front of the pool while the
        pool is below capacity and dropped otherwise. Never fails. */
    method Release(session: Session)
      requires Valid() && session !in recycled
      modifies this
      ensures Valid()
      ensures recycled == ReleaseStep(old(recycled), maxRecycled, session)
      ensures constructed == old(constructed)
      ensures old(|recycled|) < maxRecycled ==> recycled == [session] + old(recycled)
      ensures old(|recycled|) >= maxRecycled ==> recycled == old(recycled)
    {
      if maxRecycled > |recycled| {
        recycled := [session] + recycled;
      }
    }
  }

  /** A client of the factory with capacity 2: create S1 and S2 (the pool is empty,
      so both are constructed), release S1 then S2, and create once more: the
      session handed out is S2, the one released last, and S1 stays pooled. */
  method LifoReuse<S(==), C>(config: C, construct: C -> Construction<S>, second: C -> Construction<S>)
    returns (first: Option<S>, reused: Option<S>, pooled: seq<S>, e1: ErrorCode, e2: ErrorCode, e3: ErrorCode)
    requires construct(config).Constructed? && second(config).Constructed?
    requires construct(config).session != second(config).session
    ensures e1 == Success && e2 == Success && e3 == Success
    ensures reused == Some(second(config).session)
    ensures first == Some(construct(config).session)
    ensures pooled == [construct(config).session]
  {
    var factory := new SessionFactory<S, C>(2);
    first, e1 := factory.Create(config, construct);
    var s2;
    s2, e2 := factory.Create(config, second);
    factory.Release(first.value);
    factory.Release(s2.value);
    reused, e3 := factory.Create(config, construct);
    pooled := factory.recycled;
  }

  /** With capacity 2 and the pool [S2, S1], releasing a third session S3 drops
      it and leaves the pool [S2, S1]. */
  method OverflowDrop<S(==), C>(s1: S, s2: S, s3: S) returns (pooled: seq<S>)
    requires s1 != s2 && s3 != s1 && s3 != s2
    ensures pooled == [s2, s1]
  {
    var factory := new SessionFactory<S, C>(2);
    factory.Release(s1);
    factory.Release(s2);
    factory.Release(s3);
    pooled := factory.recycled;
  }
}
