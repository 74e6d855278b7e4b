/** Calls of a pinned read session: a context linked to the caller's and to the span's, released
    exactly once, and query readers that are handed over live or not at all. What goes on around
    the calls is fixed beforehand, moment by moment: the span may be closed, either context may
    end, the end of the caller may be passed on to the linked context, and the hook that cancels it
    may run, between any two steps. */
module TableReadSession {
  import opened TableReadContext

  /** What the inner session answers a query: an error or not, a reader or not. */
  datatype Answer = Answer(err: bool, reader: bool)

  /** The surroundings at each moment: whether the span has been closed, its context and the
      caller's cancelled, what the clock shows, whether a caller that is done gets to cancel its
      children and a started hook its turn, what the inner session answers. A step of a call reads
      them at the present moment, and time then goes on. */
  class World {
    const spanClosed: nat -> bool
    const spanCancelled: nat -> bool
    const callerCancelled: nat -> bool
    const clock: nat -> int
    const callerTurn: nat -> bool
    const hookTurn: nat -> bool
    const inner: nat -> Answer
    const spanDeadline: Deadline
    const callerDeadline: Deadline
    var moment: nat
    /** Every linked context ever derived and every native reader ever handed out: each enters the
        ledger in its constructor, and nothing leaves it. */
    ghost var contexts: set<LinkedContext>
    ghost var readers: set<NativeReader>

    constructor (spanClosed: nat -> bool, spanCancelled: nat -> bool, callerCancelled: nat -> bool,
                 clock: nat -> int, callerTurn: nat -> bool, hookTurn: nat -> bool, inner: nat -> Answer,
                 spanDeadline: Deadline, callerDeadline: Deadline)
      ensures this.spanClosed == spanClosed && this.spanCancelled == spanCancelled
              && this.callerCancelled == callerCancelled
      ensures this.clock == clock && this.callerTurn == callerTurn && this.hookTurn == hookTurn
      ensures this.inner == inner && moment == 0
      ensures this.spanDeadline == spanDeadline && this.callerDeadline == callerDeadline
      ensures contexts == {} && readers == {}
    {
      this.spanClosed, this.spanCancelled, this.callerCancelled := spanClosed, spanCancelled, callerCancelled;
      this.clock, this.callerTurn, this.hookTurn, this.inner := clock, callerTurn, hookTurn, inner;
      this.spanDeadline, this.callerDeadline, moment := spanDeadline, callerDeadline, 0;
      contexts, readers := {}, {};
    }

    /** Nothing is ever taken back. */
    ghost predicate Forward() {
      forall j: nat, k: nat | j <= k ::
        && (spanClosed(j) ==> spanClosed(k)) && (spanCancelled(j) ==> spanCancelled(k))
        && (callerCancelled(j) ==> callerCancelled(k)) && clock(j) <= clock(k)
    }

    predicate SpanDone(k: nat) { spanCancelled(k) || Reached(spanDeadline, clock(k)) }

    predicate CallerDone(k: nat) { callerCancelled(k) || Reached(callerDeadline, clock(k)) }

    /** A parent of the call has ended. */
    predicate Ended(k: nat) { spanClosed(k) || SpanDone(k) || CallerDone(k) }

    lemma EndedStays(j: nat, k: nat)
      requires Forward() && j <= k
      ensures (SpanDone(j) ==> SpanDone(k)) && (CallerDone(j) ==> CallerDone(k)) && (Ended(j) ==> Ended(k))
    {
      assert clock(j) <= clock(k);
    }

    method Pass()
      modifies this`moment
      ensures moment == old(moment) + 1
    {
      moment := moment + 1;
    }
  }

  /** A context derived from the caller's, with a hook on the span's. */
  class LinkedContext {
    const world: World
    const deadline: Deadline
    var cancelled: bool
    /** The release has not taken the hook off: once the span is done it may cancel this context. */
    var hooked: bool
    ghost var hookRan: bool
    var releases: nat

    constructor (world: World, deadline: Deadline)
      modifies world`contexts
      ensures this.world == world && this.deadline == deadline && !cancelled && hooked && !hookRan && releases == 0
      ensures world.contexts == old(world.contexts) + {this}
    {
      this.world, this.deadline, cancelled, hooked, hookRan, releases := world, deadline, false, true, false, 0;
      new;
      world.contexts := world.contexts + {this};
    }

    /** Done when it was cancelled, or at its deadline. */
    predicate Done()
      reads this, world
    {
      cancelled || Reached(deadline, world.clock(world.moment))
    }

    /** While hooked, nothing but the end of a parent has cancelled it: the caller's, passed on, or
        the span's, through the hook. */
    ghost predicate Consistent()
      reads this, world
    {
      && world.Forward() && deadline == LinkedDeadline(world.callerDeadline, world.spanDeadline)
      && (hookRan ==> cancelled && world.SpanDone(world.moment))
      && (cancelled && hooked ==> hookRan || world.CallerDone(world.moment))
    }

    /** Until it is released, it is done for no reason of its own: a parent is. */
    lemma DoneHasReason()
      requires Consistent() && hooked && Done()
      ensures world.CallerDone(world.moment) || world.SpanDone(world.moment)
    {
      LinkedIsEarliest(world.callerDeadline, world.spanDeadline, world.clock(world.moment));
    }

    /** The state of the machine it is in, as long as it is not released. */
    ghost function Now(): State
      reads this, world
    {
      State(world.callerCancelled(world.moment), world.spanCancelled(world.moment), world.clock(world.moment),
            world.callerDeadline, world.spanDeadline, cancelled, if hookRan then Ran else Waiting, Unreleased)
    }

    /** Time goes on; the end of the caller is passed on and the hook, if it may run, runs, each
        when its turn has come: steps of the machine. */
    method Meanwhile()
      requires Consistent() && hooked
      modifies this`cancelled, this`hookRan, world`moment
      ensures Consistent() && world.moment == old(world.moment) + 1
      ensures exists m, p :: Surroundings(old(Now()), m) && MayPass(m, p) && MayRunHook(p, Now())
      ensures cancelled <==> old(cancelled) || (world.CallerDone(world.moment) && world.callerTurn(world.moment))
                             || (world.SpanDone(world.moment) && world.hookTurn(world.moment))
    {
      world.EndedStays(world.moment, world.moment + 1);
      world.Pass();
      ghost var m := Now();
      assert Surroundings(old(Now()), m);
      if world.CallerDone(world.moment) && world.callerTurn(world.moment) { cancelled := true; }
      ghost var p := Now();
      assert MayPass(m, p);
      if world.SpanDone(world.moment) && world.hookTurn(world.moment) {
        cancelled, hookRan := true, true;
        if p.hook.Waiting? { assert HookStarts(p, p.(hook := Started)) && HookRuns(p.(hook := Started), Now()); }
      }
      assert MayRunHook(p, Now());
    }

    /** release: the hook is taken off, then the context cancelled. */
    method Release()
      requires Consistent()
      modifies this
      ensures Consistent() && cancelled && !hooked && releases == old(releases) + 1
    {
      hooked := false;
      cancelled := true;
      releases := releases + 1;
    }
  }

  /** liveError: the linked context, the span's context, the span's flag, each at its moment. Live
      means that each was found so at its turn; not live, that a parent has ended. */
  method LiveError(world: World, linked: LinkedContext) returns (live: bool)
    requires linked.world == world && linked.Consistent() && linked.hooked
    modifies world`moment, linked`cancelled, linked`hookRan
    ensures linked.Consistent() && old(world.moment) <= world.moment <= old(world.moment) + 2
    ensures live <==>
              !old(linked.Done()) && !world.SpanDone(old(world.moment) + 1) && !world.spanClosed(old(world.moment) + 2)
    ensures live ==> world.moment == old(world.moment) + 2
    ensures !live ==> world.Ended(world.moment)
  {
    if linked.Done() {
      linked.DoneHasReason();
      return false;
    }
    linked.Meanwhile();
    if world.SpanDone(world.moment) { return false; }
    linked.Meanwhile();
    return !world.spanClosed(world.moment);
  }

  /** How many moments a successful callContext takes. */
  const CALL := 5

  /** The admission of callContext: the span's flag, the caller's context, the span's context. */
  method Admitted(world: World, hasCaller: bool) returns (ok: bool)
    requires world.Forward()
    modifies world`moment
    ensures old(world.moment) <= world.moment <= old(world.moment) + 2
    ensures ok <==> hasCaller && !world.spanClosed(old(world.moment))
                    && !world.CallerDone(old(world.moment) + 1) && !world.SpanDone(old(world.moment) + 2)
    ensures ok ==> world.moment == old(world.moment) + 2
    ensures !ok ==> !hasCaller || world.Ended(world.moment)
  {
    if !hasCaller || world.spanClosed(world.moment) { return false; }
    world.Pass();
    if world.CallerDone(world.moment) { return false; }
    world.Pass();
    return !world.SpanDone(world.moment);
  }

  /** A linked context with the earlier deadline and a hook on the span, not released. It may be
      cancelled already, the end of a parent having reached it since the last check. */
  ghost predicate Linked(linked: LinkedContext, world: World)
    reads linked, world
  {
    linked.world == world && linked.Consistent() && linked.hooked && linked.releases == 0
  }

  /** A linked context that was released, once. */
  ghost predicate Dropped(linked: LinkedContext)
    reads linked
  {
    linked.releases == 1 && !linked.hooked && linked.cancelled
  }

  /** callContext. It succeeds only if nothing had ended when it was called, and whenever nothing
      has ended when it returns. Every context derived on the way is the one returned, or was
      released, once. */
  method CallContext(world: World, hasCaller: bool) returns (linked: LinkedContext?)
    requires world.Forward()
    modifies world`moment, world`contexts
    ensures old(world.moment) <= world.moment <= old(world.moment) + CALL
    ensures linked != null ==> Linked(linked, world) && world.moment == old(world.moment) + CALL
    ensures linked != null ==> hasCaller && !world.Ended(old(world.moment))
    ensures linked == null ==> !hasCaller || world.Ended(world.moment)
    ensures old(world.contexts) <= world.contexts && fresh(world.contexts - old(world.contexts))
    ensures linked != null ==> world.contexts - old(world.contexts) == {linked}
    ensures linked == null ==> forall c | c in world.contexts - old(world.contexts) :: Dropped(c)
  {
    ghost var from := world.moment;
    var admitted := Admitted(world, hasCaller);
    if !admitted { return null; }
    world.EndedStays(from, from + 1);
    world.EndedStays(from, from + 2);
    var deadline, callerDeadline := world.spanDeadline, world.callerDeadline;
    if deadline.Some? && (callerDeadline.None? || deadline.value < callerDeadline.value) {
      linked := new LinkedContext(world, deadline);
    } else {
      linked := new LinkedContext(world, callerDeadline);
    }
    linked.Meanwhile();
    var live := LiveError(world, linked);
    if !live {
      linked.Release();
      return null;
    }
  }

  // ---- Opening a reader ----

  /** What the inner session hands back: a reader open until its Close is called. */
  class NativeReader {
    var closes: nat

    constructor (ghost world: World)
      modifies world`readers
      ensures closes == 0 && world.readers == old(world.readers) + {this}
    {
      closes := 0;
      new;
      world.readers := world.readers + {this};
    }

    method Close()
      modifies this
      ensures closes == old(closes) + 1
    {
      closes := closes + 1;
    }
  }

  /** inner.ExecuteQuery, while the hook may run: any of no error or an error, with or without a
      reader. */
  method InnerQuery(world: World, linked: LinkedContext) returns (reader: NativeReader?, err: bool)
    requires Linked(linked, world)
    modifies world`moment, world`readers, linked`cancelled, linked`hookRan
    ensures Linked(linked, world) && world.moment == old(world.moment) + 1
    ensures world.readers == old(world.readers) + if reader == null then {} else {reader}
    ensures err == world.inner(world.moment).err && (reader != null <==> world.inner(world.moment).reader)
    ensures reader != null ==> fresh(reader) && reader.closes == 0
  {
    linked.Meanwhile();
    var answer := world.inner(world.moment);
    reader, err := null, answer.err;
    if answer.reader { reader := new NativeReader(world); }
  }

  /** The reader a query call returns: it owns its context and its native reader. */
  class Reader {
    const ctx: LinkedContext
    const native: NativeReader

    constructor (ctx: LinkedContext, native: NativeReader)
      ensures this.ctx == ctx && this.native == native
    {
      this.ctx, this.native := ctx, native;
    }
  }

  /** What becomes of the context and the native reader once the inner session has answered. */
  method HandOver(world: World, linked: LinkedContext, reader: NativeReader?, err: bool) returns (r: Reader?)
    requires Linked(linked, world) && (reader != null ==> reader.closes == 0)
    modifies world`moment, linked, if reader == null then {} else {reader}
    ensures old(world.moment) <= world.moment <= old(world.moment) + 2
    ensures r != null ==>
              fresh(r) && r.ctx == linked && r.native == reader && Linked(linked, world) && reader.closes == 0
    ensures r != null ==> !err
    ensures r == null ==> Dropped(linked) && (reader != null ==> reader.closes == 1)
    ensures r == null ==> err || reader == null || world.Ended(world.moment)
  {
    if err {
      linked.Release();
      if reader != null { reader.Close(); }
      return null;
    }
    if reader == null {
      linked.Release();
      return null;
    }
    var live := LiveError(world, linked);
    if !live {
      linked.Release();
      reader.Close();
      return null;
    }
    r := new Reader(linked, reader);
  }

  /** ExecuteQueryToRecordsReader and ExecuteQueryToRecordsetReader, which open alike. The reader
      returned owns every context derived and every native reader handed out on the way, unreleased
      and open; when none is returned, each of them was released exactly once and closed exactly
      once. It is returned only if nothing had ended before, and whenever the inner session gives a
      reader without an error and nothing has ended at the end. */
  method ExecuteQuery(world: World, hasCaller: bool) returns (r: Reader?)
    requires world.Forward()
    modifies world`moment, world`contexts, world`readers
    ensures old(world.moment) <= world.moment <= old(world.moment) + CALL + 3
    ensures r != null ==> Linked(r.ctx, world) && r.native.closes == 0
    ensures r != null ==>
              hasCaller && !world.Ended(old(world.moment))
                && world.inner(old(world.moment) + CALL + 1) == Answer(false, true)
    ensures hasCaller && world.inner(old(world.moment) + CALL + 1) == Answer(false, true) && !world.Ended(world.moment)
            ==> r != null
    ensures old(world.contexts) <= world.contexts && fresh(world.contexts - old(world.contexts))
    ensures old(world.readers) <= world.readers && fresh(world.readers - old(world.readers))
    ensures r != null ==>
              world.contexts - old(world.contexts) == {r.ctx} && world.readers - old(world.readers) == {r.native}
    ensures r == null ==> forall c | c in world.contexts - old(world.contexts) :: Dropped(c)
    ensures r == null ==> forall n | n in world.readers - old(world.readers) :: n.closes == 1
  {
    var linked := CallContext(world, hasCaller);
    if linked == null { return null; }
    var reader, err := InnerQuery(world, linked);
    r := HandOver(world, linked, reader, err);
  }
}
