/** The context linked to a caller and to a span, as a state machine: the end of the caller is
    passed on to it at any moment after that end, the hook on the span's context runs on a goroutine
    of its own, at any moment after that context is done, and a release takes the hook off and
    cancels, in that order. Steps interleave freely. */
module TableReadContext {
  import opened Text

  // ---- Deadlines ----

  /** An absent deadline never comes. */
  type Deadline = Option<int>

  predicate Reached(d: Deadline, now: int) { d.Some? && d.value <= now }

  /** The choice callContext makes: the span's deadline when it is there and strictly earlier. */
  function LinkedDeadline(caller: Deadline, span: Deadline): Deadline {
    if span.Some? && (caller.None? || span.value < caller.value) then span else caller
  }

  /** It is the earlier of the two: reached exactly when either is. */
  lemma LinkedIsEarliest(caller: Deadline, span: Deadline, now: int)
    ensures Reached(LinkedDeadline(caller, span), now) <==> Reached(caller, now) || Reached(span, now)
  {
    if Reached(caller, now) && span.Some? && span.value < caller.value { assert span.value <= now; }
  }

  // ---- The machine ----

  /** The hook on the span's context: set, started once that context is done, run, or taken off
      before it started. */
  datatype Hook = Waiting | Started | Ran | Stopped

  /** How far the release has come: it stops the hook, then cancels. */
  datatype Release = Unreleased | HookOff | Released

  datatype State = State(
    callerCancelled: bool, spanCancelled: bool, now: int, callerDeadline: Deadline, spanDeadline: Deadline,
    cancelled: bool, hook: Hook, release: Release)

  predicate CallerDone(s: State) { s.callerCancelled || Reached(s.callerDeadline, s.now) }

  predicate SpanDone(s: State) { s.spanCancelled || Reached(s.spanDeadline, s.now) }

  /** The linked context is done: cancelled, or at its deadline. */
  predicate Done(s: State) { s.cancelled || Reached(LinkedDeadline(s.callerDeadline, s.spanDeadline), s.now) }

  /** A context just derived. */
  ghost predicate Derived(s: State) { !s.cancelled && s.hook.Waiting? && s.release.Unreleased? }

  /** Time passes, and either parent may be cancelled; nothing is taken back. */
  ghost predicate Surroundings(s: State, s': State) {
    && s' == s.(callerCancelled := s'.callerCancelled, spanCancelled := s'.spanCancelled, now := s'.now)
    && (s.callerCancelled ==> s'.callerCancelled) && (s.spanCancelled ==> s'.spanCancelled) && s.now <= s'.now
  }

  /** A parent that is done cancels its children. */
  ghost predicate CallerPasses(s: State, s': State) { CallerDone(s) && s' == s.(cancelled := true) }

  ghost predicate HookStarts(s: State, s': State) { s.hook.Waiting? && SpanDone(s) && s' == s.(hook := Started) }

  ghost predicate HookRuns(s: State, s': State) { s.hook.Started? && s' == s.(hook := Ran, cancelled := true) }

  ghost predicate HookStep(s: State, s': State) { HookStarts(s, s') || HookRuns(s, s') }

  /** The end of the caller is passed on, or not just now; the hook runs through, or not just now. */
  ghost predicate MayPass(s: State, s': State) { s' == s || CallerPasses(s, s') }

  ghost predicate MayRunHook(s: State, s': State) { s' == s || exists n :: HookStarts(s, n) && HookRuns(n, s') }

  /** stop() takes off a hook that has not started, and nothing else. */
  ghost predicate StopsHook(s: State, s': State) {
    s.release.Unreleased? && s' == s.(release := HookOff, hook := if s.hook.Waiting? then Stopped else s.hook)
  }

  ghost predicate Cancels(s: State, s': State) {
    s.release.HookOff? && s' == s.(release := Released, cancelled := true)
  }

  ghost predicate Step(s: State, s': State) {
    Surroundings(s, s') || CallerPasses(s, s') || HookStep(s, s') || StopsHook(s, s') || Cancels(s, s')
  }

  // ---- What every step keeps ----

  ghost predicate Inv(s: State) {
    && (s.hook.Started? || s.hook.Ran? ==> SpanDone(s))
    && (s.hook.Ran? ==> s.cancelled)
    && (s.hook.Stopped? ==> !s.release.Unreleased?)
    && (s.hook.Waiting? ==> s.release.Unreleased?)
    && (s.release.Released? ==> s.cancelled)
    && (s.cancelled ==> CallerDone(s) || s.hook.Ran? || s.release.Released?)
  }

  /** Nothing is taken back. */
  predicate Later(s: State, s': State) {
    && (Done(s) ==> Done(s')) && (s.cancelled ==> s'.cancelled)
    && (CallerDone(s) ==> CallerDone(s')) && (SpanDone(s) ==> SpanDone(s'))
    && (s'.release.Unreleased? ==> s.release.Unreleased?)
  }

  lemma StepKeeps(s: State, s': State)
    requires Inv(s) && Step(s, s')
    ensures Inv(s') && Later(s, s')
  {
  }

  ghost predicate IsBehaviour(b: seq<State>) {
    |b| > 0 && Derived(b[0]) && forall k: nat | k + 1 < |b| :: StepAt(b, k)
  }

  /** From state k to the next. */
  ghost predicate StepAt(b: seq<State>, k: nat)
    requires k + 1 < |b|
  {
    Step(b[k], b[k + 1])
  }

  lemma {:induction false} Always(b: seq<State>, k: nat)
    requires IsBehaviour(b) && k < |b|
    ensures Inv(b[k])
    decreases k
  {
    if k > 0 {
      Always(b, k - 1);
      assert StepAt(b, k - 1);
      StepKeeps(b[k - 1], b[k]);
    }
  }

  /** Once done, a linked context stays done, in every interleaving. */
  lemma {:induction false} DoneStays(b: seq<State>, j: nat, k: nat)
    requires IsBehaviour(b) && j <= k < |b|
    ensures Later(b[j], b[k])
    decreases k - j
  {
    if j < k {
      DoneStays(b, j, k - 1);
      Always(b, k - 1);
      assert StepAt(b, k - 1);
      StepKeeps(b[k - 1], b[k]);
      LaterThen(b[j], b[k - 1], b[k]);
    }
  }

  lemma LaterThen(s: State, s': State, s'': State)
    requires Later(s, s') && Later(s', s'')
    ensures Later(s, s'')
  {
  }

  /** Until it is released, a context is cancelled, and done, only when a parent is done. */
  lemma DoneHasReason(b: seq<State>, k: nat)
    requires IsBehaviour(b) && k < |b| && !b[k].release.Released?
    ensures Done(b[k]) ==> CallerDone(b[k]) || SpanDone(b[k])
  {
    Always(b, k);
    LinkedIsEarliest(b[k].callerDeadline, b[k].spanDeadline, b[k].now);
  }

  /** Either deadline ends the context at once. The end of the caller by cancellation is passed on,
      and that of the span reaches it through the hook, which is never lost: at every moment from
      then on, in the span's case until a release begins, the context is cancelled or the step that
      passes the end on, or one of the hook, is open. */
  lemma FollowsParents(b: seq<State>, k: nat)
    requires IsBehaviour(b) && k < |b|
    ensures Reached(b[k].callerDeadline, b[k].now) || Reached(b[k].spanDeadline, b[k].now) ==> Done(b[k])
    ensures CallerDone(b[k]) ==> b[k].cancelled || exists s' :: CallerPasses(b[k], s')
    ensures SpanDone(b[k]) && b[k].release.Unreleased? ==> b[k].cancelled || exists s' :: HookStep(b[k], s')
  {
    Always(b, k);
    LinkedIsEarliest(b[k].callerDeadline, b[k].spanDeadline, b[k].now);
    var s := b[k];
    if CallerDone(s) { assert CallerPasses(s, s.(cancelled := true)); }
    if SpanDone(s) && s.release.Unreleased? && !s.cancelled {
      if s.hook.Waiting? { assert HookStep(s, s.(hook := Started)); }
      else { assert HookStep(s, s.(hook := Ran, cancelled := true)); }
    }
  }

  /** Once the end of the caller has been passed on, the context is done for good. */
  lemma CallerEndsContext(b: seq<State>, k: nat, n: nat)
    requires IsBehaviour(b) && k < n < |b| && CallerPasses(b[k], b[k + 1])
    ensures b[n].cancelled && Done(b[n])
  {
    DoneStays(b, k + 1, n);
  }

  /** The hook moved, other than by being taken off. */
  function Advanced(s: State, s': State): nat { if s.hook != s'.hook && !s'.hook.Stopped? then 1 else 0 }

  /** How many steps the hook took between two moments. */
  ghost function HookSteps(b: seq<State>, j: nat, k: nat): nat
    requires j <= k < |b|
    decreases k
  {
    if j == k then 0 else HookSteps(b, j, k - 1) + Advanced(b[k - 1], b[k])
  }

  /** How many steps the hook still has to take. */
  function Left(h: Hook): nat { if h.Waiting? then 2 else if h.Started? then 1 else 0 }

  lemma OneStep(s: State, s': State)
    requires Step(s, s')
    ensures Left(s'.hook) + Advanced(s, s') <= Left(s.hook)
    ensures !s'.hook.Stopped? ==> Left(s'.hook) + Advanced(s, s') == Left(s.hook)
    ensures s.hook.Stopped? ==> s'.hook.Stopped?
    ensures s'.hook.Stopped? ==> Advanced(s, s') == 0 && (s.hook.Stopped? || s.hook.Waiting?)
  {
  }

  lemma {:induction false} HookAdvances(b: seq<State>, j: nat, k: nat)
    requires IsBehaviour(b) && j <= k < |b|
    ensures Left(b[k].hook) + HookSteps(b, j, k) <= Left(b[j].hook)
    ensures !b[k].hook.Stopped? ==> Left(b[k].hook) + HookSteps(b, j, k) == Left(b[j].hook)
    ensures b[k].hook.Stopped? ==> HookSteps(b, j, k) == 0
    ensures b[j].hook.Stopped? ==> b[k].hook.Stopped?
    decreases k
  {
    if j < k {
      HookAdvances(b, j, k - 1);
      assert StepAt(b, k - 1);
      OneStep(b[k - 1], b[k]);
    }
  }

  /** So once the hook has taken its two steps, and without a release it takes them whenever it is
      scheduled after the end of the span, the context is done for good; and it never takes them
      before that end. */
  lemma HookEndsContext(b: seq<State>, k: nat, n: nat)
    requires IsBehaviour(b) && k <= n < |b| && HookSteps(b, 0, k) >= 2
    ensures b[n].cancelled && Done(b[n]) && SpanDone(b[k])
  {
    HookAdvances(b, 0, k);
    Always(b, k);
    DoneStays(b, k, n);
  }

  /** A release ends the context on its own, whatever the hook does meanwhile. */
  lemma ReleaseEndsContext(b: seq<State>, k: nat, n: nat)
    requires IsBehaviour(b) && k <= n < |b| && b[k].release.Released?
    ensures b[n].cancelled && Done(b[n])
  {
    Always(b, k);
    DoneStays(b, k, n);
  }
}
