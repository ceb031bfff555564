/**
 * The shared deadline manager of the EJBCA client: one stored context with
 * its cancel function, reused by every SOAP call until it is renewed or
 * cancelled.
 *
 * A context is identified by the number of contexts created before it and
 * carries the timeout it was created with (a Go time.Duration, in
 * nanoseconds). Calling a cancel function is recorded by adding the id of
 * its context to `cancelled`. The mutex is left out: the operations run one
 * at a time.
 */
module ContextManager {
  import opened Wrappers

  /** defaultTimeout: two minutes. */
  const DefaultTimeout: int := 120_000_000_000

  datatype Context = Context(id: nat, timeout: int)

  /** The package state: storedCtx, storedStop (the id of the context it cancels), and the history. */
  datatype Store = Store(ctx: Option<Context>, stop: Option<nat>, created: nat, cancelled: set<nat>)

  /**
   * storedCtx and storedStop are set together and belong to the same
   * context; every id was handed out before; the stored context is live.
   */
  predicate Inv(s: Store)
  {
    (s.ctx.Some? <==> s.stop.Some?) &&
    (s.ctx.Some? ==> s.stop.value == s.ctx.value.id && s.ctx.value.id < s.created && s.ctx.value.id !in s.cancelled) &&
    (forall id :: id in s.cancelled ==> id < s.created)
  }

  /** The state before any call. */
  function Initial(): (s: Store)
    ensures Inv(s) && s.ctx.None?
  {
    Store(None, None, 0, {})
  }

  /** The timeout a new context gets: `tout`, or the default when it is not positive. */
  function TimeoutFor(tout: int): (t: int)
    ensures t > 0
    ensures tout > 0 ==> t == tout
  {
    if tout <= 0 then DefaultTimeout else tout
  }

  /** CancelStoredContext: call the stored cancel function, if any, and forget the context. */
  function Release(s: Store): Store
  {
    Store(None, None, s.created, if s.stop.Some? then s.cancelled + {s.stop.value} else s.cancelled)
  }

  /** GetContextRenewed: the new state and the context handed out. */
  function Acquire(s: Store, renew: bool, tout: int): (Store, Context)
  {
    var s1 := if renew then Release(s) else s;
    if s1.ctx.Some? then (s1, s1.ctx.value)
    else
      var c := Context(s1.created, TimeoutFor(tout));
      (Store(Some(c), Some(c.id), s1.created + 1, s1.cancelled), c)
  }

  /** Every get leaves the context it hands out stored, and keeps the invariant. */
  lemma AcquireStores(s: Store, renew: bool, tout: int)
    requires Inv(s)
    ensures var (s2, c) := Acquire(s, renew, tout); Inv(s2) && s2.ctx == Some(c) && s2.stop == Some(c.id)
  {
  }

  /** Without renewal a stored context is handed out again: nothing is created or cancelled and `tout` is ignored. */
  lemma AcquireReuses(s: Store, tout: int)
    requires s.ctx.Some?
    ensures Acquire(s, false, tout) == (s, s.ctx.value)
  {
  }

  /** With nothing stored a new context is created with the chosen timeout, and nothing is cancelled. */
  lemma AcquireCreates(s: Store, tout: int)
    requires Inv(s) && s.ctx.None?
    ensures var (s2, c) := Acquire(s, false, tout);
            c == Context(s.created, TimeoutFor(tout)) && s2.created == s.created + 1 && s2.cancelled == s.cancelled
  {
  }

  /**
   * Renewal cancels the stored context, if any, and always hands out a
   * context never seen before, which is not cancelled.
   */
  lemma RenewIsFresh(s: Store, tout: int)
    requires Inv(s)
    ensures var (s2, c) := Acquire(s, true, tout);
            c.id == s.created && c.timeout == TimeoutFor(tout) && c.id !in s2.cancelled &&
            s2.cancelled == (if s.ctx.Some? then s.cancelled + {s.ctx.value.id} else s.cancelled)
  {
  }

  /** Cancelling leaves nothing stored and keeps the invariant. */
  lemma ReleaseClears(s: Store)
    requires Inv(s)
    ensures Inv(Release(s)) && Release(s).ctx.None? && Release(s).stop.None?
    ensures Release(s).created == s.created
  {
  }

  /** A second cancel cancels nothing more. */
  lemma ReleaseIdempotent(s: Store)
    ensures Release(Release(s)) == Release(s)
  {
  }

  /** After a cancel the next get creates a new context. */
  lemma GetAfterRelease(s: Store, tout: int)
    requires Inv(s)
    ensures Acquire(Release(s), false, tout).1 == Context(s.created, TimeoutFor(tout))
  {
  }

  /** The package-level storedCtx and storedStop, with the history the model keeps. */
  class ContextStore {
    var storedCtx: Option<Context>
    var storedStop: Option<nat>
    var created: nat
    var cancelled: set<nat>

    function State(): Store
      reads this
    {
      Store(storedCtx, storedStop, created, cancelled)
    }

    constructor()
      ensures State() == Initial()
    {
      storedCtx := None;
      storedStop := None;
      created := 0;
      cancelled := {};
    }

    /** GetContextRenewed. */
    method GetContextRenewed(renew: bool, tout: int) returns (ctx: Context)
      modifies this
      ensures (State(), ctx) == Acquire(old(State()), renew, tout)
    {
      if renew {
        if storedStop.Some? {
          cancelled := cancelled + {storedStop.value};
        }
        storedStop := None;
        storedCtx := None;
      }
      if storedCtx.Some? {
        return storedCtx.value;
      }
      var t := tout;
      if t <= 0 {
        t := DefaultTimeout;
      }
      var newCtx := Context(created, t);
      created := created + 1;
      storedCtx := Some(newCtx);
      storedStop := Some(newCtx.id);
      return newCtx;
    }

    /** GetContext: GetContextRenewed(false, 0). */
    method GetContext() returns (ctx: Context)
      modifies this
      ensures (State(), ctx) == Acquire(old(State()), false, 0)
    {
      ctx := GetContextRenewed(false, 0);
    }

    /** CancelStoredContext. */
    method CancelStoredContext()
      modifies this
      ensures State() == Release(old(State()))
    {
      if storedStop.Some? {
        cancelled := cancelled + {storedStop.value};
      }
      storedStop := None;
      storedCtx := None;
    }
  }
}
