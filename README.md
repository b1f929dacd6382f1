# Session recycling pool of the echo server

This project models `simple_session_factory` from the asio_samples echo server
(`ma::echo::server`). The factory hands out sessions to the accept path:

- `create(config, error)` reuses the session released most recently, if the pool
  holds one. Otherwise it constructs a new session from `config`. If that
  construction throws `std::bad_alloc`, it returns a null handle with the error
  `not_enough_memory`.
- `release(session)` pushes the session on the front of the pool while the pool
  holds fewer than `max_recycled_` sessions. Otherwise it drops the session.

The model has two modules:

- `SessionPool` (`session_pool.dfy`) defines the pool as values. It has one step
  function per operation (`CreateStep`, `ReleaseStep`), the identity-based list
  erase that `create` uses (`Erase`), and lemmas about single calls and about
  whole call sequences. These cover the capacity invariant, LIFO order, dropping on
  overflow, the untouched pool on failure, and the multi-session LIFO round trip.
- `SimpleSessionFactory` (`simple_session_factory.dfy`) is the factory as a class.
  The field `recycled: seq<Session>` stands for the member list `recycled_`, and the
  constant `maxRecycled` for `max_recycled_`. Its methods `Create` and `Release` change
  `recycled` in place, as the C++ does. Each method's postcondition ties the new
  state and its results to the step function. The object invariant `Valid()`
  says the pool is within capacity and links no session twice. Two client methods
  replay the LIFO-reuse and overflow-drop scenarios against the class
  contracts alone.

Sessions and configurations are type parameters, so a session is an opaque
identity. Constructing a session (`session_wrapper::create(io_service_,
config)`) is a parameter `construct: Config -> Construction<Session>`. It yields
`Constructed(s)` or `OutOfMemory`, which stands for `std::bad_alloc`. The error
out-parameter becomes the return value `ErrorCode` (`Success` for the default
`error_code()`, `NotEnoughMemory`), and the null `session_ptr` becomes `None`.

`recycled_.erase(session)` removes the entry by identity. `Erase` models it by
removing every entry equal to the session. `Release` requires that the session is
not already pooled, because an intrusive list cannot link the same node twice and
a released session is one the caller holds. Under that requirement the pool stays
duplicate-free. Erasing any entry then unlinks exactly that entry and keeps the
others in order (`EraseKeepsOrder`); for the front entry this is dropping the head
of the list (`EraseFrontOfDistinct`).

In the class, a ghost set `constructed` records every session the factory has
built. `Create` requires a newly constructed session to be outside that set,
which stands for `session_wrapper::create` always making a new object.

A recycled session is returned as it is: `create` does not apply the new
`config` to it. `CreateReusesFront` states this: the result does not depend on the
configuration or on the constructor.

## Model

| member | source | states |
|---|---|---|
| SessionPool.Erase | examples/ma_echo_server_core/src/simple_session_factory.cpp:53 | erasing a session by identity removes it from the pool, keeps every other entry and never grows the pool; erasing an absent session changes nothing |
| SessionPool.EraseKeepsOrder | examples/ma_echo_server_core/src/simple_session_factory.cpp:53 | in a duplicate-free pool, erasing the entry at any position by identity removes exactly that entry, keeps the other entries in their order, and shortens the pool by one |
| SessionPool.EraseFrontOfDistinct | examples/ma_echo_server_core/src/simple_session_factory.cpp:51-53 | in a duplicate-free pool, erasing the front entry by identity leaves exactly the tail of the list |
| SessionPool.CreateStep | examples/ma_echo_server_core/src/simple_session_factory.cpp:46-70 | create never grows the pool; it reports Success exactly when it returns a handle; when it returns the null handle the pool is unchanged; it keeps the pool duplicate-free; a handle it hands out from a duplicate-free pool is no longer in the pool |
| SessionPool.ReleaseStep | examples/ma_echo_server_core/src/simple_session_factory.cpp:72-78 | release either leaves the pool as it was or puts the session in front of it; a pool within capacity stays within capacity; a session not yet pooled keeps the pool duplicate-free |
| SessionPool.CreateReusesFront | examples/ma_echo_server_core/src/simple_session_factory.cpp:49-55 | on a non-empty pool, create returns the front (most recently released) entry unchanged with Success and leaves the tail; the outcome is the same for any configuration and any constructor, so nothing is constructed or reconfigured |
| SessionPool.CreateConstructsWhenEmpty | examples/ma_echo_server_core/src/simple_session_factory.cpp:58-69 | on an empty pool, create returns the constructed session with Success, or the null handle with NotEnoughMemory when construction runs out of memory; the pool stays empty |
| SessionPool.CreateFailsOnlyOnOutOfMemory | examples/ma_echo_server_core/src/simple_session_factory.cpp:49-69 | create reports NotEnoughMemory if and only if the pool was empty and construction ran out of memory, and then the pool is untouched |
| SessionPool.ReleaseKeepsOnlyBelowCapacity | examples/ma_echo_server_core/src/simple_session_factory.cpp:72-78 | below capacity, release makes the pool the session followed by the old pool, one entry longer; at or above capacity, the pool is exactly unchanged |
| SessionPool.ReleaseThenCreate | examples/ma_echo_server_core/src/simple_session_factory.cpp:46-78 | LIFO round trip: below capacity, release(s) followed by create returns s with Success and restores the original pool |
| SessionPool.ReleaseAllBelowCapacity | examples/ma_echo_server_core/src/simple_session_factory.cpp:74-76 | with room for all of them, releasing sessions one by one stacks them on the pool, the last released at the front |
| SessionPool.CreateAllFromPool | examples/ma_echo_server_core/src/simple_session_factory.cpp:49-55 | n creates on a duplicate-free pool holding at least n sessions hand out its first n entries, front first, and leave the rest |
| SessionPool.LifoRoundTrip | examples/ma_echo_server_core/src/simple_session_factory.cpp:46-78 | below capacity, releasing k distinct unpooled sessions and then calling create k times returns them in reverse order of release and restores the original pool |
| SessionPool.RunKeepsCapacity | examples/ma_echo_server_core/src/simple_session_factory.cpp:46-78 | capacity invariant: for every sequence of create and release calls, a pool that starts within max_recycled stays within it |
| SessionPool.LifoReuseExample | examples/ma_echo_server_core/src/simple_session_factory.cpp:46-78 | with capacity 2, releasing S1 then S2 gives the pool [S2, S1], and the next create returns S2 and leaves [S1] |
| SessionPool.OverflowDropExample | examples/ma_echo_server_core/src/simple_session_factory.cpp:72-78 | with capacity 2, releasing S1, S2 and then S3 leaves the pool [S2, S1]: S3 is not retained |
| SimpleSessionFactory.SessionFactory.Create | examples/ma_echo_server_core/src/simple_session_factory.cpp:46-70 | the object invariant is kept; a handle handed out is no longer pooled; on a non-empty pool, the result is the old front with Success and the pool becomes the old tail; on an empty pool, the result is the constructed session with Success, or None with NotEnoughMemory, and the pool stays empty; a constructed session is new (outside the set of sessions constructed before) and is added to that set |
| SimpleSessionFactory.SessionFactory.Release | examples/ma_echo_server_core/src/simple_session_factory.cpp:72-78 | the object invariant is kept; below capacity the pool becomes the session followed by the old pool; at capacity the pool is unchanged |
| SimpleSessionFactory.LifoReuse | examples/ma_echo_server_core/src/simple_session_factory.cpp:46-78 | a client of a capacity-2 factory creates S1 and S2, releases S1 then S2, and the next create hands out S2 while S1 stays pooled; all three creates report Success |
| SimpleSessionFactory.OverflowDrop | examples/ma_echo_server_core/src/simple_session_factory.cpp:72-78 | a client of a capacity-2 factory releases S1, S2 and S3; S3 is dropped and the pool is [S2, S1] |

## Left out

- `session_wrapper`, `shared_ptr_factory_helper`, `detail::make_shared` and `static_pointer_cast` (heap allocation, reference counting, casts). Only the outcome of constructing a session is modelled: a session, or out of memory.
- The C++ exception mechanism. A `std::bad_alloc` from construction is the value `OutOfMemory`, and the error out-parameter is a returned `ErrorCode`.
- The factory's constructor, the `io_service` reference and the `session` class (socket I/O, configuration handling). They are defined in headers that are not part of this model. The model's constructor only takes the capacity and starts with an empty pool.
- Concurrency. The factory has a single owner and no locking, so calls are modelled as sequential.
- The handler-binding test (`tests/ma_bind_handler_test/src/bind_handler_test.cpp`). Its assertions depend on Boost.Asio's dispatch loop and hook lookup, and on `ma/bind_handler.hpp`, which is not part of this model.
- SessionPool.CreateStep, SessionPool.CreateAll and the other pure step functions: the constructor is a pure function, so they do not make a constructed session a new identity (two creates on an empty pool with the same constructor hand out the same value). Only the class `SessionFactory` tracks freshness, through its ghost set `constructed`. The pure lemmas about several creates use only pooled sessions, where the question does not arise.
- SimpleSessionFactory.SessionFactory.Release: requires that the session is not already pooled. The C++ does not check this. Releasing a pooled session would link an intrusive-list node twice, which callers must not do.
