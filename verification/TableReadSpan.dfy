/** Invalidating a pinned table read while calls are under way: any number of callers close the
    span, ask for facts, take the session or use it, and every load, swap and native call is one
    step. The log orders what matters: who swapped, who cleaned up, and each call's last check. */
module TableReadSpan {
  import opened Text

  datatype Event =
    | Swapped(who: nat)
    | Cancelled(who: nat)
    | RolledBack(who: nat)
    | ConnClosed(who: nat)
    | DbClosed(who: nat)
    | FlagSeen(who: nat)
    | LastCheck(who: nat)

  /** Where one caller stands. Check counts the loads of a session call: the three of its
      admission, the three of the linked liveness check, then after the native call three more;
      facts are the loads of Facts. Taking counts those of the Session accessor: the flag, and the
      context once the flag was seen open. A check that found the span open remembers its place in
      the log. */
  datatype Caller =
    | Idle
    | Closing
    | Cancelling
    | RollingBack
    | ClosingConn
    | ClosingDb
    | ReturnedClose(first: bool)
    | Check(k: nat)
    | Native
    | Recheck(k: nat)
    | Facts(k: nat)
    | Taking(seen: Option<nat>)
    | Succeeded(checkedAt: nat)
    | Taken(flagAt: nat, checkedAt: nat)
    | Failed

  /** `ended` says of each caller whether the context it gave to its present call has ended. */
  datatype State = State(closed: bool, cancelled: bool, ended: seq<bool>, callers: seq<Caller>,
                         ghost log: seq<Event>, ghost winner: Option<nat>)

  function Initial(n: nat): State { State(false, false, seq(n, i => false), seq(n, i => Idle), [], None) }

  predicate AtRest(c: Caller) { c.Idle? || c.ReturnedClose? || c.Succeeded? || c.Taken? || c.Failed? }

  // ---- Steps ----

  ghost function At(s: State, i: nat, c: Caller): State
    requires i < |s.callers|
  {
    s.(callers := s.callers[i := c])
  }

  ghost function Logged(s: State, i: nat, c: Caller, event: Event): State
    requires i < |s.callers|
  {
    s.(callers := s.callers[i := c], log := s.log + [event])
  }

  /** A call of any kind begins, with a context of its own. */
  ghost predicate Begins(s: State, s': State, i: nat)
    requires i < |s.callers|
  {
    && AtRest(s.callers[i]) && i < |s.ended| == |s'.ended|
    && var s0 := s.(ended := s.ended[i := s'.ended[i]]);
       s' == At(s0, i, Closing) || s' == At(s0, i, Check(0)) || s' == At(s0, i, Facts(0))
       || s' == At(s0, i, Taking(None))
  }

  /** Close: swap, cancel, roll back, close the connection, close the pool. */
  ghost predicate Closes(s: State, s': State, i: nat)
    requires i < |s.callers|
  {
    match s.callers[i]
    case Closing =>
      s' == if s.closed then At(s, i, ReturnedClose(false))
            else Logged(s, i, Cancelling, Swapped(i)).(closed := true, winner := Some(i))
    case Cancelling => s' == Logged(s, i, RollingBack, Cancelled(i)).(cancelled := true)
    case RollingBack => s' == Logged(s, i, ClosingConn, RolledBack(i))
    case ClosingConn => s' == Logged(s, i, ClosingDb, ConnClosed(i))
    case ClosingDb => s' == Logged(s, i, ReturnedClose(true), DbClosed(i))
    case _ => false
  }

  /** What a load finds: the span's flag, the span's context, the caller's context, or the linked
      one, which has ended only if one of those two has, and may hear of it late. */
  ghost predicate MayFind(s: State, i: nat, source: nat, found: bool)
    requires i < |s.ended|
  {
    match source
    case 0 => found == s.closed
    case 1 => found == s.cancelled
    case 2 => found == s.ended[i]
    case _ => found ==> s.ended[i] || s.cancelled
  }

  /** Loads of a session call before native: the flag, the caller's context, the span's context;
      then the linked context, the span's context, the flag. */
  function CheckSource(k: nat): nat {
    if k == 0 then 0 else if k == 1 then 2 else if k == 2 then 1 else if k == 3 then 3 else if k == 4 then 1 else 0
  }

  /** The context looked at first, then the span's. */
  function LastSource(own: nat, k: nat): nat { if k == 0 then own else 1 }

  /** Loads after native, and those of Facts: the linked or the caller's context, the span's
      context, the flag. */
  ghost predicate LastLoad(s: State, s': State, i: nat, k: nat, own: nat, next: Caller)
    requires i < |s.callers| && i < |s.ended|
  {
    if k < 2 then exists found: bool ::
      MayFind(s, i, LastSource(own, k), found) && s' == At(s, i, if found then Failed else next)
    else s' == Logged(s, i, if s.closed then Failed else Succeeded(|s.log|), LastCheck(i))
  }

  ghost predicate Calls(s: State, s': State, i: nat)
    requires i < |s.callers| && i < |s.ended|
  {
    match s.callers[i]
    case Check(k) =>
      exists found: bool ::
        MayFind(s, i, CheckSource(k), found)
          && s' == At(s, i, if found then Failed else if k < 5 then Check(k + 1) else Native)
    case Native => s' == At(s, i, Failed) || s' == At(s, i, Recheck(0))
    case Recheck(k) => LastLoad(s, s', i, k, 3, Recheck(k + 1))
    case Facts(k) => LastLoad(s, s', i, k, 2, Facts(k + 1))
    case Taking(None) => s' == if s.closed then At(s, i, Failed) else Logged(s, i, Taking(Some(|s.log|)), FlagSeen(i))
    case Taking(Some(p)) => s' == Logged(s, i, if s.cancelled then Failed else Taken(p, |s.log|), LastCheck(i))
    case _ => false
  }

  ghost predicate Moves(s: State, s': State, i: nat)
    requires i < |s.callers|
  {
    Begins(s, s', i) || Closes(s, s', i) || (i < |s.ended| && Calls(s, s', i))
  }

  ghost predicate CallerEnds(s: State, s': State, i: nat)
    requires i < |s.ended|
  {
    s' == s.(ended := s.ended[i := true])
  }

  /** The ingress context ends, or a caller's own. */
  ghost predicate Ends(s: State, s': State) {
    s' == s.(cancelled := true) || exists i: nat | i < |s.ended| :: CallerEnds(s, s', i)
  }

  ghost predicate Step(s: State, s': State) {
    Ends(s, s') || exists i: nat | i < |s.callers| :: Moves(s, s', i)
  }

  // ---- What every step keeps ----

  predicate IsCleanup(e: Event) { !e.LastCheck? && !e.FlagSeen? }

  function Cleanup(log: seq<Event>): seq<Event> {
    if log == [] then []
    else Cleanup(log[..|log| - 1]) + if IsCleanup(log[|log| - 1]) then [log[|log| - 1]] else []
  }

  /** Everything one closing caller does, in order. */
  function Full(w: nat): seq<Event> { [Swapped(w), Cancelled(w), RolledBack(w), ConnClosed(w), DbClosed(w)] }

  predicate Working(c: Caller) { c.Cancelling? || c.RollingBack? || c.ClosingConn? || c.ClosingDb? }

  function Done(c: Caller): nat {
    if c.Cancelling? then 1 else if c.RollingBack? then 2 else if c.ClosingConn? then 3 else if c.ClosingDb? then 4
      else 5
  }

  ghost predicate Unswapped(log: seq<Event>) { forall p | 0 <= p < |log| :: !log[p].Swapped? }

  ghost predicate Uncancelled(log: seq<Event>) { forall p | 0 <= p < |log| :: !log[p].Cancelled? }

  /** The flag was seen open at p, before any swap. */
  ghost predicate SeenOpen(s: State, i: nat, p: nat) {
    p < |s.log| && s.log[p] == FlagSeen(i) && Unswapped(s.log[..p])
  }

  /** The last check of a successful call stands in the log before any swap; of the accessor that
      gave out the session, the load of the flag before any swap and the last check before the
      span's context is cancelled. */
  ghost predicate Placed(s: State, i: nat, c: Caller) {
    && (c.Taking? && c.seen.Some? ==> SeenOpen(s, i, c.seen.value))
    && (c.Taken? ==> SeenOpen(s, i, c.flagAt) && c.flagAt < c.checkedAt < |s.log|
                     && s.log[c.checkedAt] == LastCheck(i) && Uncancelled(s.log[..c.checkedAt]))
    && (c.Succeeded? ==> c.checkedAt < |s.log| && s.log[c.checkedAt] == LastCheck(i) && Unswapped(s.log[..c.checkedAt]))
    && (c == ReturnedClose(true) ==> s.winner.Some? && Cleanup(s.log) == Full(s.winner.value))
    && (c.ReturnedClose? ==> s.winner.Some?)
  }

  ghost predicate Inv(s: State) {
    && |s.ended| == |s.callers|
    && (s.closed <==> s.winner.Some?)
    && (s.winner.None? ==> Cleanup(s.log) == [])
    && (s.winner.Some? ==>
          s.winner.value < |s.callers| && Cleanup(s.log) == Full(s.winner.value)[..Done(s.callers[s.winner.value])]
          && (Done(s.callers[s.winner.value]) >= 2 ==> s.cancelled))
    && forall i: nat | i < |s.callers| :: Placed(s, i, s.callers[i]) && (Working(s.callers[i]) ==> s.winner == Some(i))
  }

  lemma CleanupStep(log: seq<Event>, e: Event)
    ensures Cleanup(log + [e]) == Cleanup(log) + if IsCleanup(e) then [e] else []
  {
    assert (log + [e])[..|log|] == log;
  }

  lemma {:induction false} CleanupHas(log: seq<Event>, p: nat)
    requires p < |log| && IsCleanup(log[p])
    ensures log[p] in Cleanup(log)
    decreases |log|
  {
    if p < |log| - 1 { CleanupHas(log[..|log| - 1], p); }
  }

  /** What the flag and the context say about the log: nobody has swapped while the span is open,
      and nobody has cancelled while its context is not. */
  lemma LogAgrees(s: State)
    requires Inv(s)
    ensures !s.closed ==> Unswapped(s.log)
    ensures !s.cancelled ==> Uncancelled(s.log)
  {
    forall p | 0 <= p < |s.log|
      ensures (!s.closed ==> !s.log[p].Swapped?) && (!s.cancelled ==> !s.log[p].Cancelled?)
    {
      if s.log[p].Swapped? || s.log[p].Cancelled? { CleanupHas(s.log, p); }
    }
  }

  /** Nothing that was placed is displaced by a step that cleans nothing up. */
  lemma StaysPlaced(s: State, s': State, j: nat, c: Caller)
    requires Placed(s, j, c) && s.log <= s'.log && s'.winner == s.winner && Cleanup(s'.log) == Cleanup(s.log)
    ensures Placed(s', j, c)
  {
    PrefixesKept(s, s');
  }

  lemma PrefixesKept(s: State, s': State)
    requires s.log <= s'.log
    ensures forall p | 0 <= p < |s.log| :: s'.log[p] == s.log[p]
    ensures forall p | 0 <= p <= |s.log| :: s'.log[..p] == s.log[..p]
  {
  }

  /** A caller that is not cleaning up moves on. */
  lemma OneMoved(s: State, s': State, i: nat)
    requires Inv(s) && i < |s.callers| == |s'.callers|
             && s' == s.(log := s'.log, callers := s.callers[i := s'.callers[i]], ended := s'.ended)
    requires |s'.ended| == |s.ended|
    requires s.log <= s'.log && Cleanup(s'.log) == Cleanup(s.log)
    requires !Working(s.callers[i]) && !Working(s'.callers[i]) && Placed(s', i, s'.callers[i])
    ensures Inv(s')
  {
    forall j: nat | j < |s'.callers| ensures Placed(s', j, s'.callers[j]) {
      if j != i { StaysPlaced(s, s', j, s.callers[j]); }
    }
  }

  lemma LastLoadKeeps(s: State, s': State, i: nat, k: nat, own: nat, next: Caller)
    requires Inv(s) && i < |s.callers| && !Working(s.callers[i]) && LastLoad(s, s', i, k, own, next)
    requires next == Recheck(k + 1) || next == Facts(k + 1)
    ensures Inv(s')
  {
    if k >= 2 {
      CleanupStep(s.log, LastCheck(i));
      LogAgrees(s);
      assert s'.log[..|s.log|] == s.log;
    }
    OneMoved(s, s', i);
  }

  /** A step of the Session accessor. */
  lemma TakingKeeps(s: State, s': State, i: nat)
    requires Inv(s) && i < |s.callers| && s.callers[i].Taking? && Calls(s, s', i)
    ensures Inv(s')
  {
    var c := s.callers[i];
    assert Placed(s, i, c);
    LogAgrees(s);
    if c.seen.Some? || !s.closed {
      CleanupStep(s.log, s'.log[|s.log|]);
      PrefixesKept(s, s');
    }
    OneMoved(s, s', i);
  }

  lemma CallsKeeps(s: State, s': State, i: nat)
    requires Inv(s) && i < |s.callers| && Calls(s, s', i)
    ensures Inv(s')
  {
    match s.callers[i] {
      case Check(k) => OneMoved(s, s', i);
      case Native => OneMoved(s, s', i);
      case Recheck(k) => LastLoadKeeps(s, s', i, k, 3, Recheck(k + 1));
      case Facts(k) => LastLoadKeeps(s, s', i, k, 2, Facts(k + 1));
      case Taking(p) => TakingKeeps(s, s', i);
    }
  }

  lemma BeginsKeeps(s: State, s': State, i: nat)
    requires Inv(s) && i < |s.callers| && Begins(s, s', i)
    ensures Inv(s')
  {
    OneMoved(s, s', i);
  }

  /** The closing caller cleans up one more thing. */
  lemma WinnerMoved(s: State, s': State, i: nat, event: Event)
    requires Inv(s) && i < |s.callers| == |s'.callers|
             && (Working(s.callers[i]) || (!s.closed && s.callers[i].Closing?))
    requires s' == Logged(s, i, s'.callers[i], event).(closed := true, cancelled := s'.cancelled, winner := Some(i))
    requires IsCleanup(event) && Done(s'.callers[i]) == (if s.closed then Done(s.callers[i]) else 0) + 1
    requires event == Full(i)[Done(s'.callers[i]) - 1]
    requires Working(s'.callers[i]) || s'.callers[i] == ReturnedClose(true)
    requires (s.cancelled ==> s'.cancelled) && (Done(s'.callers[i]) >= 2 ==> s'.cancelled)
    ensures Inv(s')
  {
    CleanupStep(s.log, event);
    assert Full(i)[..Done(s'.callers[i])] == Full(i)[..Done(s'.callers[i]) - 1] + [event];
    PrefixesKept(s, s');
    forall j: nat | j < |s'.callers| ensures Placed(s', j, s'.callers[j]) {
      if j != i { assert Placed(s, j, s.callers[j]); }
    }
  }

  lemma ClosesKeeps(s: State, s': State, i: nat)
    requires Inv(s) && i < |s.callers| && Closes(s, s', i)
    ensures Inv(s')
  {
    match s.callers[i] {
      case Closing => if s.closed { OneMoved(s, s', i); } else { WinnerMoved(s, s', i, Swapped(i)); }
      case Cancelling => WinnerMoved(s, s', i, Cancelled(i));
      case RollingBack => WinnerMoved(s, s', i, RolledBack(i));
      case ClosingConn => WinnerMoved(s, s', i, ConnClosed(i));
      case ClosingDb => WinnerMoved(s, s', i, DbClosed(i));
    }
  }

  lemma StepKeeps(s: State, s': State)
    requires Inv(s) && Step(s, s')
    ensures Inv(s')
  {
    if Ends(s, s') {
      forall j: nat | j < |s'.callers| ensures Placed(s', j, s'.callers[j]) { assert Placed(s, j, s.callers[j]); }
    } else {
      var i: nat :| i < |s.callers| && Moves(s, s', i);
      if Closes(s, s', i) { ClosesKeeps(s, s', i); } else if Calls(s, s', i) { CallsKeeps(s, s', i); }
      else { BeginsKeeps(s, s', i); }
    }
  }

  // ---- Every interleaving ----

  ghost predicate StepAt(b: seq<State>, k: nat)
    requires 0 < k < |b|
  {
    Step(b[k - 1], b[k])
  }

  ghost predicate IsBehaviour(b: seq<State>, n: nat) {
    |b| > 0 && b[0] == Initial(n) && forall k | 0 < k < |b| :: StepAt(b, k)
  }

  lemma {:induction false} Always(b: seq<State>, n: nat, k: nat)
    requires IsBehaviour(b, n) && k < |b|
    ensures Inv(b[k])
    decreases k
  {
    if k > 0 {
      Always(b, n, k - 1);
      assert StepAt(b, k);
      StepKeeps(b[k - 1], b[k]);
    }
  }

  /** In every interleaving one caller at most cleans up, doing in order exactly a prefix of swap,
      cancel, rollback, connection close, pool close; when its Close returns it has done them all. */
  lemma OneCleanup(b: seq<State>, n: nat, k: nat)
    requires IsBehaviour(b, n) && k < |b|
    ensures b[k].closed <==> b[k].winner.Some?
    ensures b[k].winner.None? ==> Cleanup(b[k].log) == []
    ensures b[k].winner.Some? ==> Cleanup(b[k].log) <= Full(b[k].winner.value)
    ensures b[k].closed ==>
              (exists i | 0 <= i < |b[k].callers| :: Working(b[k].callers[i]))
              || Cleanup(b[k].log) == Full(b[k].winner.value)
    ensures forall i | 0 <= i < |b[k].callers| :: b[k].callers[i].ReturnedClose? ==> b[k].closed
    ensures forall i | 0 <= i < |b[k].callers| :: b[k].callers[i] == ReturnedClose(true) ==>
              b[k].winner.Some? && Cleanup(b[k].log) == Full(b[k].winner.value)
  {
    Always(b, n, k);
    forall i | 0 <= i < |b[k].callers| ensures b[k].callers[i] == ReturnedClose(true) ==>
                                                 b[k].winner.Some? && Cleanup(b[k].log) == Full(b[k].winner.value)
                                               ensures b[k].callers[i].ReturnedClose? ==> b[k].closed
    {
      assert Placed(b[k], i, b[k].callers[i]);
    }
  }

  /** And no session or facts call succeeds whose last check stands after the swap: the check of
      every successful call comes before it in the log. */
  lemma NoLateSuccess(b: seq<State>, n: nat, k: nat, i: nat, q: nat)
    requires IsBehaviour(b, n) && k < |b| && i < |b[k].callers| && b[k].callers[i].Succeeded?
    requires q < |b[k].log| && b[k].log[q].Swapped?
    ensures b[k].callers[i].checkedAt < q && b[k].log[b[k].callers[i].checkedAt] == LastCheck(i)
  {
    Always(b, n, k);
    var at := b[k].callers[i].checkedAt;
    assert Placed(b[k], i, b[k].callers[i]);
    assert forall p | 0 <= p < at :: b[k].log[..at][p] == b[k].log[p];
  }

  /** The accessor looks at the flag first and at the context last. When it gives out the session,
      it saw the flag before the swap, and its last check comes before the cancellation. */
  lemma NoLateSession(b: seq<State>, n: nat, k: nat, i: nat, q: nat)
    requires IsBehaviour(b, n) && k < |b| && i < |b[k].callers| && b[k].callers[i].Taken? && q < |b[k].log|
    ensures b[k].log[q].Swapped? ==> b[k].callers[i].flagAt < q
    ensures b[k].log[q].Cancelled? ==> b[k].callers[i].checkedAt < q
    ensures SeenOpen(b[k], i, b[k].callers[i].flagAt) && b[k].callers[i].checkedAt < |b[k].log|
    ensures b[k].log[b[k].callers[i].checkedAt] == LastCheck(i)
  {
    Always(b, n, k);
    var c := b[k].callers[i];
    assert Placed(b[k], i, c);
    assert forall p | 0 <= p < c.flagAt :: b[k].log[..c.flagAt][p] == b[k].log[p];
    assert forall p | 0 <= p < c.checkedAt :: b[k].log[..c.checkedAt][p] == b[k].log[p];
  }

  /** So between the swap and the cancellation it can still give out the session, unlike a session
      or facts call: here caller 1 sees the flag, caller 0 swaps, and caller 1 makes its last check. */
  lemma LateSession() returns (b: seq<State>)
    ensures IsBehaviour(b, 2) && |b| == 6
    ensures b[5].log == [FlagSeen(1), Swapped(0), LastCheck(1)] && b[5].callers == [Cancelling, Taken(0, 2)]
  {
    var s0 := Initial(2);
    var s1 := At(s0, 1, Taking(None));
    var s2 := Logged(s1, 1, Taking(Some(0)), FlagSeen(1));
    var s3 := At(s2, 0, Closing);
    var s4 := Logged(s3, 0, Cancelling, Swapped(0)).(closed := true, winner := Some(0));
    var s5 := Logged(s4, 1, Taken(0, 2), LastCheck(1));
    assert Begins(s0, s1, 1) && Moves(s0, s1, 1);
    assert Calls(s1, s2, 1) && Moves(s1, s2, 1);
    assert Begins(s2, s3, 0) && Moves(s2, s3, 0);
    assert Closes(s3, s4, 0) && Moves(s3, s4, 0);
    assert Calls(s4, s5, 1) && Moves(s4, s5, 1);
    b := [s0, s1, s2, s3, s4, s5];
    assert forall k | 0 < k < |b| :: StepAt(b, k);
  }

  // ---- Calls on a span that has ended ----

  /** From j to k the caller stays in one call. */
  ghost predicate InCall(b: seq<State>, i: nat, j: nat, k: nat) {
    j <= k < |b| && forall l | j <= l < k :: i < |b[l].callers| && !AtRest(b[l].callers[i])
  }

  /** The call can no longer succeed. */
  predicate Doomed(s: State, i: nat)
    requires i < |s.callers| && i < |s.ended|
  {
    match s.callers[i]
    case Check(m) => s.closed || s.cancelled || (m <= 1 && s.ended[i])
    case Native => s.closed || s.cancelled
    case Recheck(m) => m <= 2 && (s.closed || (s.cancelled && m <= 1))
    case Facts(m) => m <= 2 && (s.closed || (s.cancelled && m <= 1) || (s.ended[i] && m == 0))
    case Taking(seen) => s.cancelled || (seen.None? && s.closed)
    case Failed => true
    case _ => false
  }

  /** Nor will it call native. */
  predicate Refused(s: State, i: nat)
    requires i < |s.callers| && i < |s.ended|
  {
    match s.callers[i]
    case Check(m) => m <= 5 && (s.closed || (s.cancelled && m <= 4) || (s.ended[i] && m <= 1))
    case Failed => true
    case _ => false
  }

  lemma OneDoomed(s: State, s': State, i: nat)
    requires Inv(s) && Inv(s') && Step(s, s') && i < |s.callers| == |s'.callers| && !AtRest(s.callers[i])
    ensures Doomed(s, i) ==> Doomed(s', i)
    ensures Refused(s, i) ==> Refused(s', i)
  {
    if Ends(s, s') {
      LaterDoomed(s, s', i);
    } else {
      var j: nat :| j < |s.callers| && Moves(s, s', j);
      if j == i { OwnDoomed(s, s', i); } else { OtherMoved(s, s', i, j); LaterDoomed(s, s', i); }
    }
  }

  lemma OtherMoved(s: State, s': State, i: nat, j: nat)
    requires Inv(s) && i < |s.callers| && j < |s.callers| && i != j && Moves(s, s', j)
    ensures i < |s'.callers| && i < |s'.ended| && s'.callers[i] == s.callers[i] && s'.ended[i] == s.ended[i]
    ensures (s.closed ==> s'.closed) && (s.cancelled ==> s'.cancelled)
  {
  }

  lemma LaterDoomed(s: State, s': State, i: nat)
    requires i < |s.callers| && i < |s.ended| && i < |s'.callers| && i < |s'.ended| && s'.callers[i] == s.callers[i]
    requires (s.closed ==> s'.closed) && (s.cancelled ==> s'.cancelled) && (s.ended[i] ==> s'.ended[i])
    ensures Doomed(s, i) ==> Doomed(s', i)
    ensures Refused(s, i) ==> Refused(s', i)
  {
  }

  lemma OwnDoomed(s: State, s': State, i: nat)
    requires Inv(s) && Inv(s') && i < |s.callers| == |s'.callers| && Moves(s, s', i) && !AtRest(s.callers[i])
    ensures Doomed(s, i) ==> Doomed(s', i)
    ensures Refused(s, i) ==> Refused(s', i)
  {
  }

  lemma {:induction false} StaysDoomed(b: seq<State>, n: nat, i: nat, j: nat, k: nat)
    requires IsBehaviour(b, n) && InCall(b, i, j, k) && i < |b[j].callers| && i < |b[j].ended|
    ensures i < |b[k].callers| && i < |b[k].ended|
    ensures Doomed(b[j], i) ==> Doomed(b[k], i)
    ensures Refused(b[j], i) ==> Refused(b[k], i)
    decreases k
  {
    if j < k {
      StaysDoomed(b, n, i, j, k - 1);
      Always(b, n, k - 1);
      Always(b, n, k);
      assert StepAt(b, k);
      OneDoomed(b[k - 1], b[k], i);
    }
  }

  /** A session or facts call that begins when the span is closed, its context done or the caller's
      context ended fails, the session call without calling native; so does one whose native call
      is under way when the span ends, and an accessor that begins after that. */
  lemma EndedCallFails(b: seq<State>, n: nat, i: nat, j: nat, k: nat)
    requires IsBehaviour(b, n) && InCall(b, i, j, k) && i < |b[j].callers| && i < |b[j].ended|
    requires var s, c := b[j], b[j].callers[i];
             || ((c == Check(0) || c == Facts(0)) && (s.closed || s.cancelled || s.ended[i]))
             || ((c == Native || c == Taking(None)) && (s.closed || s.cancelled))
    ensures i < |b[k].callers| && !b[k].callers[i].Succeeded? && !b[k].callers[i].Taken?
    ensures AtRest(b[k].callers[i]) ==> b[k].callers[i].Failed?
    ensures b[j].callers[i] == Check(0) ==> !b[k].callers[i].Native?
  {
    StaysDoomed(b, n, i, j, k);
  }
}
