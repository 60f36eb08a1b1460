/**
 * The per-user namespace pool (`GetGlobalContext`): each role gets one
 * global context, found by a linear scan and created on first use.
 */
module Namespaces {
  import opened Base

  datatype NsEntry = NsEntry(userId: Oid, context: Handle)

  /** The pool in registration order. */
  type Pool = seq<NsEntry>

  /** No role has two contexts. */
  predicate UniqueUsers(pool: Pool) {
    forall i, j :: 0 <= i < j < |pool| ==> pool[i].userId != pool[j].userId
  }

  /** No two entries share a context: each role's global objects are its own. */
  predicate DistinctContexts(pool: Pool) {
    forall i, j :: 0 <= i < j < |pool| ==> pool[i].context != pool[j].context
  }

  /** Every context was handed out before handle `next`. */
  predicate ContextsBelow(pool: Pool, next: Handle) {
    forall i :: 0 <= i < |pool| ==> pool[i].context < next
  }

  /** The configured start-up procedure and how it ends when run. */
  datatype Startup = NotConfigured | Completes | Fails(failure: Failure)

  /** The context of the first entry registered for `user`. */
  function FindContext(pool: Pool, user: Oid): (r: Option<Handle>)
    ensures r.None? <==> forall i :: 0 <= i < |pool| ==> pool[i].userId != user
    ensures r.Some? ==> exists i :: 0 <= i < |pool| && pool[i] == NsEntry(user, r.value)
  {
    if |pool| == 0 then None
    else if pool[0].userId == user then Some(pool[0].context)
    else
      var rest := FindContext(pool[1..], user);
      assert forall i :: 1 <= i < |pool| ==> pool[i] == pool[1..][i - 1];
      rest
  }

  /** The pool after a lookup, the next free handle, and the context or the start-up failure. */
  datatype Acquired = Acquired(pool: Pool, next: Handle, result: Result<Handle>)

  /**
   * The context for `user`. A new context takes handle `next`, and is
   * registered before the start-up procedure runs, so that code run by
   * the procedure finds it; a failing procedure leaves it registered.
   */
  function GetGlobalContext(pool: Pool, user: Oid, next: Handle, startup: Startup): (r: Acquired)
    ensures FindContext(pool, user).Some? ==>
      r == Acquired(pool, next, Ok(FindContext(pool, user).value))
    ensures FindContext(pool, user).None? ==>
      && r.pool == pool + [NsEntry(user, next)]
      && r.next == next + 1
      && (r.result.Ok? <==> !startup.Fails?)
      && (r.result.Ok? ==> r.result.value == next)
      && (startup.Fails? ==> r.result == Fail(startup.failure))
  {
    match FindContext(pool, user)
    case Some(ctx) => Acquired(pool, next, Ok(ctx))
    case None =>
      var registered := pool + [NsEntry(user, next)];
      match startup
      case Fails(f) => Acquired(registered, next + 1, Fail(f))
      case _ => Acquired(registered, next + 1, Ok(next))
  }

  lemma {:induction false} FindAppended(pool: Pool, e: NsEntry)
    requires FindContext(pool, e.userId).None?
    ensures FindContext(pool + [e], e.userId) == Some(e.context)
    ensures forall u :: u != e.userId ==> FindContext(pool + [e], u) == FindContext(pool, u)
  {
    if |pool| > 0 {
      assert (pool + [e])[1..] == pool[1..] + [e];
      FindAppended(pool[1..], e);
    }
  }

  /**
   * After any lookup the user has a context, and asking again returns it
   * without running the start-up procedure, even when the first start-up
   * failed: the procedure runs at most once per user.
   */
  lemma SecondLookupReuses(pool: Pool, user: Oid, next: Handle, s1: Startup, s2: Startup)
    ensures var r1 := GetGlobalContext(pool, user, next, s1);
      && FindContext(r1.pool, user) == Some(if FindContext(pool, user).Some? then FindContext(pool, user).value else next)
      && GetGlobalContext(r1.pool, user, r1.next, s2) == Acquired(r1.pool, r1.next, Ok(FindContext(r1.pool, user).value))
  {
    if FindContext(pool, user).None? {
      FindAppended(pool, NsEntry(user, next));
    }
  }

  /** Lookups keep one context per role, and never change another role's context. */
  lemma LookupKeepsUsersUnique(pool: Pool, user: Oid, next: Handle, startup: Startup, other: Oid)
    requires UniqueUsers(pool)
    requires other != user
    ensures var r := GetGlobalContext(pool, user, next, startup);
      UniqueUsers(r.pool) && FindContext(r.pool, other) == FindContext(pool, other)
  {
    if FindContext(pool, user).None? {
      FindAppended(pool, NsEntry(user, next));
    }
  }

  /** With distinct contexts in the pool, two roles never share a context. */
  lemma DistinctUsersDistinctContexts(pool: Pool, u1: Oid, u2: Oid)
    requires DistinctContexts(pool)
    requires u1 != u2
    requires FindContext(pool, u1).Some? && FindContext(pool, u2).Some?
    ensures FindContext(pool, u1) != FindContext(pool, u2)
  {
    var i :| 0 <= i < |pool| && pool[i] == NsEntry(u1, FindContext(pool, u1).value);
    var j :| 0 <= j < |pool| && pool[j] == NsEntry(u2, FindContext(pool, u2).value);
    assert i != j;
    if i < j {
      assert pool[i].context != pool[j].context;
    } else {
      assert pool[j].context != pool[i].context;
    }
  }

  /**
   * Lookups keep the roles apart: the pool only grows at its end, a new
   * context is a handle not handed out before, no context is shared, and so
   * no two roles ever resolve to the same context.
   */
  lemma LookupKeepsContextsDistinct(pool: Pool, user: Oid, next: Handle, startup: Startup)
    requires DistinctContexts(pool) && ContextsBelow(pool, next)
    ensures var r := GetGlobalContext(pool, user, next, startup);
      && pool <= r.pool
      && next <= r.next
      && (forall i :: |pool| <= i < |r.pool| ==> next <= r.pool[i].context)
      && DistinctContexts(r.pool)
      && ContextsBelow(r.pool, r.next)
      && (forall u1, u2 :: u1 != u2 && FindContext(r.pool, u1).Some? && FindContext(r.pool, u2).Some? ==>
            FindContext(r.pool, u1) != FindContext(r.pool, u2))
  {
    var r := GetGlobalContext(pool, user, next, startup);
    assert DistinctContexts(r.pool);
    forall u1, u2 | u1 != u2 && FindContext(r.pool, u1).Some? && FindContext(r.pool, u2).Some?
      ensures FindContext(r.pool, u1) != FindContext(r.pool, u2)
    {
      DistinctUsersDistinctContexts(r.pool, u1, u2);
    }
  }
}
