/** One reader of a pinned table read, used and closed by any number of callers at once: each
    atomic load, swap, store and native call is one step, and steps interleave freely. */
module TableReadReader {
  import opened Text

  /** The flags that end a reader's life. Each one only ever goes from false to true. */
  datatype Flags = Flags(linkedDone: bool, spanDone: bool, spanClosed: bool, readerClosed: bool)

  predicate Live(f: Flags) { !f.linkedDone && !f.spanDone && !f.spanClosed && !f.readerClosed }

  /** The four loads of liveError, in order. */
  function Load(f: Flags, k: nat): bool {
    if k == 0 then f.linkedDone else if k == 1 then f.spanDone else if k == 2 then f.spanClosed else f.readerClosed
  }

  predicate Below(f: Flags, g: Flags) {
    (f.linkedDone ==> g.linkedDone) && (f.spanDone ==> g.spanDone) && (f.spanClosed ==> g.spanClosed)
      && (f.readerClosed ==> g.readerClosed)
  }

  /** How a native call or a close went. */
  type Error = bool

  /** Where one caller stands. A Next or Cursor call checks, calls native, checks again; `seen`
      are the flags at the moment native returned. Close swaps first; only the caller that
      found the flag unset goes on to release, close and store. `known` is the close result
      stored when the call began. */
  datatype Caller =
    | Idle
    | Check(k: nat)
    | Native
    | Recheck(k: nat, seen: Flags)
    | Failing
    | ReturnedValue(seen: Flags)
    | ReturnedError
    | CloseCall(known: Option<Error>)
    | LoadResult(known: Option<Error>, failing: bool)
    | Release(known: Option<Error>, failing: bool)
    | CloseNative(known: Option<Error>, failing: bool)
    | StoreResult(err: Error, known: Option<Error>, failing: bool)
    | ReturnedClose(err: Error, known: Option<Error>)

  datatype State = State(
    flags: Flags, released: bool, nativeCloses: nat, result: Option<Error>, callers: seq<Caller>,
      ghost winner: Option<nat>)

  function Initial(n: nat): State {
    State(Flags(false, false, false, false), false, 0, None, seq(n, i => Idle), None)
  }

  // ---- Steps ----

  ghost function With(s: State, i: nat, c: Caller): State
    requires i < |s.callers|
  {
    s.(callers := s.callers[i := c])
  }

  predicate Finished(c: Caller) { c.Idle? || c.ReturnedValue? || c.ReturnedError? || c.ReturnedClose? }

  /** A caller begins a call of either kind. */
  ghost predicate Begins(s: State, s': State, i: nat)
    requires i < |s.callers|
  {
    Finished(s.callers[i]) && (s' == With(s, i, Check(0)) || s' == With(s, i, CloseCall(s.result)))
  }

  ghost predicate Reads(s: State, s': State, i: nat)
    requires i < |s.callers|
  {
    match s.callers[i]
    case Check(k) => s' == With(s, i, if Load(s.flags, k) then Failing else if k < 3 then Check(k + 1) else Native)
    case Native => s' == With(s, i, Failing) || s' == With(s, i, Recheck(0, s.flags))
    case Recheck(k, seen) =>
      s' == With(s, i, if Load(s.flags, k) then Failing else if k < 3 then Recheck(k + 1, seen)
                 else ReturnedValue(seen))
    case _ => false
  }

  /** closed.Swap(true), by a Close call or by a failing Next or Cursor. */
  ghost function Swapped(s: State, i: nat, known: Option<Error>, failing: bool): State
    requires i < |s.callers|
  {
    if s.flags.readerClosed then With(s, i, LoadResult(known, failing))
    else With(s.(flags := s.flags.(readerClosed := true), winner := Some(i)), i, Release(known, failing))
  }

  function Returned(err: Error, known: Option<Error>, failing: bool): Caller {
    if failing then ReturnedError else ReturnedClose(err, known)
  }

  ghost predicate Closes(s: State, s': State, i: nat)
    requires i < |s.callers|
  {
    match s.callers[i]
    case Failing => s' == Swapped(s, i, s.result, true)
    case CloseCall(known) => s' == Swapped(s, i, known, false)
    case LoadResult(known, failing) =>
      s' == With(s, i, Returned(if s.result.Some? then s.result.value else false, known, failing))
    case Release(known, failing) =>
      s' == With(s.(flags := s.flags.(linkedDone := true), released := true), i, CloseNative(known, failing))
    case CloseNative(known, failing) =>
      exists err: Error :: s' == With(s.(nativeCloses := s.nativeCloses + 1), i, StoreResult(err, known, failing))
    case StoreResult(err, known, failing) => s' == With(s.(result := Some(err)), i, Returned(err, known, failing))
    case _ => false
  }

  /** The span or the caller's context ends. */
  ghost predicate Surroundings(s: State, s': State) {
    exists f: Flags :: Below(s.flags, f) && f.readerClosed == s.flags.readerClosed && s' == s.(flags := f)
  }

  ghost predicate Moves(s: State, s': State, i: nat)
    requires i < |s.callers|
  {
    Begins(s, s', i) || Reads(s, s', i) || Closes(s, s', i)
  }

  ghost predicate Step(s: State, s': State) {
    Surroundings(s, s') || exists i: nat | i < |s.callers| :: Moves(s, s', i)
  }

  // ---- What every step keeps ----

  predicate Closing(c: Caller) { c.Release? || c.CloseNative? || c.StoreResult? }

  /** How far the closing caller has come. */
  ghost predicate Progress(s: State, w: nat)
    requires w < |s.callers|
  {
    var c := s.callers[w];
    if c.Release? then !s.released && s.nativeCloses == 0 && s.result.None?
    else if c.CloseNative? then s.released && s.nativeCloses == 0 && s.result.None?
    else if c.StoreResult? then s.released && s.nativeCloses == 1 && s.result.None?
    else s.released && s.nativeCloses == 1 && s.result.Some?
  }

  /** What a caller's place says about the flags and the result. */
  ghost predicate Placed(s: State, c: Caller) {
    match c
    case Recheck(k, seen) => Below(seen, s.flags) && k <= 3 && forall j: nat | j < k :: !Load(seen, j)
    case Check(k) => k <= 3
    case ReturnedValue(seen) => Live(seen)
    case ReturnedError => s.flags.readerClosed
    case CloseCall(known) => KnownStays(s, known)
    case LoadResult(known, _) => s.flags.readerClosed && KnownStays(s, known)
    case Release(known, _) => s.flags.readerClosed && known.None?
    case CloseNative(known, _) => s.flags.readerClosed && known.None?
    case StoreResult(_, known, _) => s.flags.readerClosed && known.None?
    case ReturnedClose(err, known) =>
      s.flags.readerClosed && KnownStays(s, known) && (known.Some? ==> err == known.value)
    case _ => true
  }

  ghost predicate KnownStays(s: State, known: Option<Error>) { known.Some? ==> s.result == known }

  ghost predicate Inv(s: State) {
    && (s.flags.readerClosed <==> s.winner.Some?)
    && (s.released ==> s.flags.linkedDone)
    && (forall i: nat | i < |s.callers| :: Placed(s, s.callers[i]) && (Closing(s.callers[i]) ==> s.winner == Some(i)))
    && (s.winner.Some? ==> s.winner.value < |s.callers| && Progress(s, s.winner.value))
    && (s.winner.None? ==> !s.released && s.nativeCloses == 0 && s.result.None?)
  }

  /** The state moved on, without taking anything back. */
  ghost predicate Later(s: State, s': State) {
    && Below(s.flags, s'.flags) && (s.result.Some? ==> s'.result == s.result) && (s.released ==> s'.released)
    && s.nativeCloses <= s'.nativeCloses && (s.winner.Some? ==> s'.winner == s.winner)
  }

  lemma PlacedLater(s: State, s': State, c: Caller)
    requires Later(s, s') && Placed(s, c)
    ensures Placed(s', c)
  {
  }

  /** A step of one caller that keeps who is closing and how far. */
  lemma OneMoved(s: State, s': State, i: nat)
    requires Inv(s) && i < |s.callers| == |s'.callers|
             && s' == s.(flags := s'.flags, callers := s.callers[i := s'.callers[i]])
    requires Below(s.flags, s'.flags) && s'.flags.readerClosed == s.flags.readerClosed
    requires !Closing(s.callers[i]) && !Closing(s'.callers[i]) && Placed(s', s'.callers[i])
    ensures Inv(s') && Later(s, s')
  {
    forall j: nat | j < |s'.callers| ensures Placed(s', s'.callers[j]) {
      if j != i { PlacedLater(s, s', s.callers[j]); }
    }
  }

  lemma BeginsKeeps(s: State, s': State, i: nat)
    requires Inv(s) && i < |s.callers| && Begins(s, s', i)
    ensures Inv(s') && Later(s, s')
  {
    OneMoved(s, s', i);
  }

  lemma ReadsKeeps(s: State, s': State, i: nat)
    requires Inv(s) && i < |s.callers| && Reads(s, s', i)
    ensures Inv(s') && Later(s, s')
  {
    if s.callers[i].Recheck? && !Load(s.flags, s.callers[i].k) {
      RecheckPlaced(s, s.callers[i].k, s.callers[i].seen);
    }
    OneMoved(s, s', i);
  }

  /** A flag found unset now was unset when native returned. */
  lemma RecheckPlaced(s: State, k: nat, seen: Flags)
    requires Placed(s, Recheck(k, seen)) && !Load(s.flags, k)
    ensures k < 3 ==> Placed(s, Recheck(k + 1, seen))
    ensures k == 3 ==> Live(seen)
  {
    assert !Load(seen, k);
    if k == 3 { assert !Load(seen, 0) && !Load(seen, 1) && !Load(seen, 2); }
  }

  lemma SwapKeeps(s: State, s': State, i: nat, known: Option<Error>, failing: bool)
    requires Inv(s) && i < |s.callers| && !Closing(s.callers[i]) && KnownStays(s, known)
    requires s' == Swapped(s, i, known, failing)
    ensures Inv(s') && Later(s, s')
  {
    if s.flags.readerClosed {
      OneMoved(s, s', i);
    } else {
      forall j: nat | j < |s'.callers| ensures Placed(s', s'.callers[j]) {
        if j != i { PlacedLater(s, s', s.callers[j]); }
      }
    }
  }

  /** The closing caller moves on. */
  lemma WinnerMoved(s: State, s': State, i: nat)
    requires Inv(s) && i < |s.callers| == |s'.callers| && Closing(s.callers[i]) && Later(s, s')
    requires s' == s.(flags := s'.flags, released := s'.released, nativeCloses := s'.nativeCloses, result := s'.result,
                      callers := s.callers[i := s'.callers[i]])
    requires s'.flags.readerClosed && (s'.released ==> s'.flags.linkedDone)
    requires Placed(s', s'.callers[i]) && Progress(s', i)
    ensures Inv(s')
  {
    forall j: nat | j < |s'.callers| ensures Placed(s', s'.callers[j]) {
      if j != i { PlacedLater(s, s', s.callers[j]); }
    }
  }

  lemma ClosesKeeps(s: State, s': State, i: nat)
    requires Inv(s) && i < |s.callers| && Closes(s, s', i)
    ensures Inv(s') && Later(s, s')
  {
    var c := s.callers[i];
    assert Placed(s, c);
    match c {
      case Failing => SwapKeeps(s, s', i, s.result, true);
      case CloseCall(known) => SwapKeeps(s, s', i, known, false);
      case LoadResult(known, failing) => OneMoved(s, s', i);
      case Release(_, _) => WinnerMoved(s, s', i);
      case CloseNative(_, _) => WinnerMoved(s, s', i);
      case StoreResult(_, _, _) => WinnerMoved(s, s', i);
    }
  }

  lemma SurroundingsKeep(s: State, s': State)
    requires Inv(s) && Surroundings(s, s')
    ensures Inv(s') && Later(s, s')
  {
    forall j: nat | j < |s'.callers| ensures Placed(s', s'.callers[j]) { PlacedLater(s, s', s.callers[j]); }
  }

  lemma StepKeeps(s: State, s': State)
    requires Inv(s) && Step(s, s')
    ensures Inv(s') && Later(s, s')
  {
    if Surroundings(s, s') {
      SurroundingsKeep(s, s');
    } else {
      var i: nat :| i < |s.callers| && Moves(s, s', i);
      if Begins(s, s', i) { BeginsKeeps(s, s', i); }
      else if Reads(s, s', i) { ReadsKeeps(s, s', i); }
      else { ClosesKeeps(s, s', i); }
    }
  }

  // ---- Every interleaving ----

  ghost predicate StepAt(b: seq<State>, k: nat)
    requires 0 < k < |b|
  {
    Step(b[k - 1], b[k])
  }

  ghost predicate IsBehaviour(b: seq<State>, n: nat) {
    |b| > 0 && b[0] == Initial(n) && forall k | 0 < k < |b| :: StepAt(b, k)
  }

  lemma {:induction false} Always(b: seq<State>, n: nat, k: nat)
    requires IsBehaviour(b, n) && k < |b|
    ensures Inv(b[k])
    decreases k
  {
    if k > 0 {
      Always(b, n, k - 1);
      assert StepAt(b, k);
      StepKeeps(b[k - 1], b[k]);
    }
  }

  lemma {:induction false} NothingUndone(b: seq<State>, n: nat, j: nat, k: nat)
    requires IsBehaviour(b, n) && j <= k < |b|
    ensures Later(b[j], b[k])
    decreases k - j
  {
    if j < k {
      NothingUndone(b, n, j, k - 1);
      Always(b, n, k - 1);
      assert StepAt(b, k);
      StepKeeps(b[k - 1], b[k]);
    }
  }

  /** In every interleaving of Next, Cursor and Close: the native reader is closed at most once
      and only after the linked context was released; whenever the flag is set some caller is on
      its way to the store or the result is stored; a call that returned an error left the reader
      closed; a value returned came from a native call that returned while the reader,
      its context and the span were all live. */
  lemma CloseProtocol(b: seq<State>, n: nat, k: nat, i: nat)
    requires IsBehaviour(b, n) && k < |b| && i < |b[k].callers|
    ensures b[k].nativeCloses <= 1 && (b[k].nativeCloses == 1 ==> b[k].released && b[k].flags.linkedDone)
    ensures b[k].callers[i].ReturnedError? ==> b[k].flags.readerClosed
    ensures b[k].callers[i].ReturnedValue? ==> Live(b[k].callers[i].seen)
    ensures b[k].result.Some? ==> b[k].nativeCloses == 1
    ensures b[k].flags.readerClosed ==>
              (exists w: nat | w < |b[k].callers| :: Closing(b[k].callers[w])) || (b[k].result.Some? && b[k].released)
  {
    Always(b, n, k);
    assert Placed(b[k], b[k].callers[i]);
  }

  /** Once the close result is stored it never changes, and every Close call that began after
      that returns it. */
  lemma ResultReturned(b: seq<State>, n: nat, j: nat, k: nat, i: nat)
    requires IsBehaviour(b, n) && j <= k < |b| && b[j].result.Some? && i < |b[k].callers|
    ensures b[k].result == b[j].result
    ensures b[k].callers[i].ReturnedClose? && b[k].callers[i].known.Some? ==> b[j].result == Some(b[k].callers[i].err)
  {
    NothingUndone(b, n, j, k);
    Always(b, n, k);
    assert Placed(b[k], b[k].callers[i]);
  }

  /** At most one caller is ever between the swap and the store. */
  lemma OneCloser(b: seq<State>, n: nat, k: nat, i: nat, j: nat)
    requires IsBehaviour(b, n) && k < |b| && i < |b[k].callers| && j < |b[k].callers|
    requires Closing(b[k].callers[i]) && Closing(b[k].callers[j])
    ensures i == j
  {
    Always(b, n, k);
  }

  // ---- One call from its beginning to its end ----

  /** From j to k the caller stays in one call: it has not finished before k. */
  ghost predicate InCall(b: seq<State>, i: nat, j: nat, k: nat) {
    j <= k < |b| && forall l | j <= l < k :: i < |b[l].callers| && !Finished(b[l].callers[i])
  }

  lemma {:induction false} SameCallers(b: seq<State>, n: nat, k: nat)
    requires IsBehaviour(b, n) && k < |b|
    ensures |b[k].callers| == n
    decreases k
  {
    if k > 0 {
      SameCallers(b, n, k - 1);
      assert StepAt(b, k);
    }
  }

  /** A step moves one caller or none. */
  lemma StepOf(s: State, s': State, i: nat)
    requires Step(s, s') && i < |s.callers|
    ensures |s'.callers| == |s.callers| && (s'.callers[i] == s.callers[i] || Moves(s, s', i))
  {
  }

  /** A Next or Cursor call, closing what failed included; anything else is a Close. */
  predicate Uses(c: Caller) {
    match c
    case Check(_) => true
    case Native => true
    case Recheck(_, _) => true
    case Failing => true
    case ReturnedValue(_) => true
    case ReturnedError => true
    case LoadResult(_, failing) => failing
    case Release(_, failing) => failing
    case CloseNative(_, failing) => failing
    case StoreResult(_, _, failing) => failing
    case _ => false
  }

  /** A Next or Cursor call ends with a value or an error of its own, a Close call with what the
      close gave. */
  lemma {:induction false} CallKeepsKind(b: seq<State>, n: nat, i: nat, j: nat, k: nat)
    requires IsBehaviour(b, n) && i < n && InCall(b, i, j, k)
    ensures |b[j].callers| == |b[k].callers| == n
    ensures Uses(b[j].callers[i]) <==> Uses(b[k].callers[i])
    ensures Finished(b[k].callers[i]) && j < k ==> (b[k].callers[i].ReturnedClose? <==> !Uses(b[j].callers[i]))
    decreases k
  {
    SameCallers(b, n, j);
    SameCallers(b, n, k);
    if j < k {
      SameCallers(b, n, k - 1);
      CallKeepsKind(b, n, i, j, k - 1);
      assert StepAt(b, k);
      StepOf(b[k - 1], b[k], i);
    }
  }

  // ---- What a call on a dead reader does ----

  predicate NotPast(c: Caller, d: nat) {
    match c
    case Check(m) => m <= d
    case Native => false
    case Recheck(_, _) => false
    case ReturnedValue(_) => false
    case _ => true
  }

  lemma OneStops(s: State, s': State, i: nat, d: nat)
    requires Step(s, s') && i < |s.callers| == |s'.callers| && d <= 3
    requires !Finished(s.callers[i]) && NotPast(s.callers[i], d) && Load(s.flags, d)
    ensures NotPast(s'.callers[i], d)
  {
    StepOf(s, s', i);
  }

  lemma {:induction false} StopsAt(b: seq<State>, n: nat, i: nat, j: nat, k: nat, d: nat)
    requires IsBehaviour(b, n) && i < n && InCall(b, i, j, k) && d <= 3
    requires i < |b[j].callers| && b[j].callers[i] == Check(0) && Load(b[j].flags, d)
    ensures i < |b[k].callers| && NotPast(b[k].callers[i], d)
    decreases k
  {
    SameCallers(b, n, k);
    if j < k {
      StopsAt(b, n, i, j, k - 1, d);
      NothingUndone(b, n, j, k - 1);
      assert StepAt(b, k);
      OneStops(b[k - 1], b[k], i, d);
    }
  }

  lemma Ended(f: Flags) returns (d: nat)
    requires !Live(f)
    ensures d <= 3 && Load(f, d)
  {
    d := if f.linkedDone then 0 else if f.spanDone then 1 else if f.spanClosed then 2 else 3;
  }

  /** A Next or Cursor call that begins when the reader, its context or the span has ended never
      calls native and never returns a value. */
  lemma DeadCallFails(b: seq<State>, n: nat, i: nat, j: nat, k: nat)
    requires IsBehaviour(b, n) && i < n && InCall(b, i, j, k)
    requires i < |b[j].callers| && b[j].callers[i] == Check(0) && !Live(b[j].flags)
    ensures i < |b[k].callers|
    ensures !b[k].callers[i].Native? && !b[k].callers[i].Recheck? && !b[k].callers[i].ReturnedValue?
    ensures Finished(b[k].callers[i]) ==> b[k].callers[i].ReturnedError?
  {
    var d := Ended(b[j].flags);
    StopsAt(b, n, i, j, k, d);
    CallKeepsKind(b, n, i, j, k);
    SameCallers(b, n, k);
    NeverIdleAgain(b, n, i, j, k);
  }

  lemma {:induction false} NeverIdleAgain(b: seq<State>, n: nat, i: nat, j: nat, k: nat)
    requires IsBehaviour(b, n) && i < n && InCall(b, i, j, k) && i < |b[j].callers| && !b[j].callers[i].Idle?
    ensures i < |b[k].callers| && !b[k].callers[i].Idle?
    decreases k
  {
    SameCallers(b, n, k);
    if j < k {
      NeverIdleAgain(b, n, i, j, k - 1);
      assert StepAt(b, k);
      StepOf(b[k - 1], b[k], i);
    }
  }

  // ---- What Close answers ----

  /** At moment m caller i has made the native close, which answered err. */
  ghost predicate NativeAnswered(b: seq<State>, m: nat, i: nat, err: Error) {
    && 0 < m < |b| && i < |b[m - 1].callers| && i < |b[m].callers|
    && b[m - 1].callers[i].CloseNative? && b[m].callers[i].StoreResult? && b[m].callers[i].err == err
  }

  /** Only the native close answers, and it does so once. */
  lemma OneNativeClose(b: seq<State>, n: nat, m: nat, m': nat, i: nat, i': nat, err: Error, err': Error)
    requires IsBehaviour(b, n) && NativeAnswered(b, m, i, err) && NativeAnswered(b, m', i', err') && m <= m'
    ensures m == m' && i == i' && err == err'
  {
    NativeCloseAt(b, n, m, i, err);
    NativeCloseAt(b, n, m', i', err');
    if m < m' { NothingUndone(b, n, m, m' - 1); }
  }

  lemma NativeCloseAt(b: seq<State>, n: nat, m: nat, i: nat, err: Error)
    requires IsBehaviour(b, n) && NativeAnswered(b, m, i, err)
    ensures b[m - 1].nativeCloses == 0 && b[m].nativeCloses == 1 && b[m].winner == Some(i)
  {
    Always(b, n, m - 1);
    AtTheClose(b[m - 1], i);
    Always(b, n, m);
    AtTheClose(b[m], i);
  }

  lemma AtTheClose(s: State, i: nat)
    requires Inv(s) && i < |s.callers|
    ensures s.callers[i].CloseNative? ==> s.nativeCloses == 0 && s.winner == Some(i)
    ensures s.callers[i].StoreResult? ==> s.nativeCloses == 1 && s.winner == Some(i)
  {
  }

  /** Whoever stands before the store has just heard the native close's answer. */
  lemma {:induction false} StoresAnswer(b: seq<State>, n: nat, k: nat, i: nat) returns (m: nat)
    requires IsBehaviour(b, n) && k < |b| && i < |b[k].callers| && b[k].callers[i].StoreResult?
    ensures m <= k && NativeAnswered(b, m, i, b[k].callers[i].err)
    decreases k
  {
    assert k > 0;
    SameCallers(b, n, k - 1);
    SameCallers(b, n, k);
    assert StepAt(b, k);
    StepOf(b[k - 1], b[k], i);
    if b[k - 1].callers[i] == b[k].callers[i] { m := StoresAnswer(b, n, k - 1, i); } else { m := k; }
  }

  /** The stored result is the answer of the native close. */
  lemma {:induction false} StoredIsAnswer(b: seq<State>, n: nat, k: nat) returns (m: nat, i: nat)
    requires IsBehaviour(b, n) && k < |b| && b[k].result.Some?
    ensures m <= k && NativeAnswered(b, m, i, b[k].result.value)
    decreases k
  {
    assert k > 0;
    if b[k - 1].result == b[k].result {
      m, i := StoredIsAnswer(b, n, k - 1);
    } else {
      assert StepAt(b, k);
      i :| 0 <= i < |b[k - 1].callers| && Moves(b[k - 1], b[k], i);
      m := StoresAnswer(b, n, k - 1, i);
    }
  }

  /** The call that made the native close returns its answer, and that is what is stored. */
  lemma {:induction false} CloserReturnsAnswer(b: seq<State>, n: nat, m: nat, k: nat, i: nat, err: Error)
    requires IsBehaviour(b, n) && NativeAnswered(b, m, i, err) && InCall(b, i, m, k)
    ensures i < |b[k].callers|
    ensures !Finished(b[k].callers[i]) ==> b[k].callers[i].StoreResult? && b[k].callers[i].err == err
    ensures Finished(b[k].callers[i]) ==> b[k].result == Some(err)
    ensures b[k].callers[i].ReturnedClose? ==> b[k].callers[i].err == err
    decreases k
  {
    SameCallers(b, n, k);
    if m < k {
      CloserReturnsAnswer(b, n, m, k - 1, i, err);
      assert StepAt(b, k);
      StepOf(b[k - 1], b[k], i);
    }
  }

  /** At moment l the caller found the flag set by another. */
  ghost predicate FoundClosed(b: seq<State>, l: nat, i: nat, err: Error) {
    && l < |b| && i < |b[l].callers| && b[l].callers[i].LoadResult? && b[l].flags.readerClosed
    && err == (b[l].result == Some(true))
  }

  /** Where a Close call stands that has not finished. */
  ghost predicate Midway(b: seq<State>, i: nat, j: nat, k: nat)
    requires k < |b| && i < |b[k].callers|
  {
    match b[k].callers[i]
    case CloseCall(_) => true
    case LoadResult(_, failing) => !failing && j < k && b[k].flags.readerClosed
    case Release(_, failing) => !failing
    case CloseNative(_, failing) => !failing
    case StoreResult(err, _, failing) => !failing && AnsweredSince(b, i, j, k, err)
    case ReturnedClose(err, _) => AnsweredSince(b, i, j, k, err) || LostSince(b, i, j, k, err)
    case _ => false
  }

  ghost predicate AnsweredSince(b: seq<State>, i: nat, j: nat, k: nat, err: Error) {
    exists m | j < m <= k :: NativeAnswered(b, m, i, err)
  }

  ghost predicate LostSince(b: seq<State>, i: nat, j: nat, k: nat, err: Error) {
    exists l | j < l < k :: FoundClosed(b, l, i, err)
  }

  lemma {:induction false} CloseStands(b: seq<State>, n: nat, i: nat, j: nat, k: nat)
    requires IsBehaviour(b, n) && i < n && InCall(b, i, j, k) && i < |b[j].callers| && b[j].callers[i].CloseCall?
    ensures i < |b[k].callers| && Midway(b, i, j, k)
    decreases k
  {
    SameCallers(b, n, k);
    if j < k {
      CloseStands(b, n, i, j, k - 1);
      SameCallers(b, n, k - 1);
      StandsLater(b, n, i, j, k);
    }
  }

  lemma StandsLater(b: seq<State>, n: nat, i: nat, j: nat, k: nat)
    requires IsBehaviour(b, n) && j < k < |b| && i < |b[k - 1].callers| == |b[k].callers|
    requires Midway(b, i, j, k - 1) && !Finished(b[k - 1].callers[i])
    ensures Midway(b, i, j, k)
  {
    NothingUndone(b, n, k - 1, k);
    assert StepAt(b, k);
    StandsNext(b, i, j, k);
  }

  lemma StandsNext(b: seq<State>, i: nat, j: nat, k: nat)
    requires j < k < |b| && i < |b[k - 1].callers| == |b[k].callers| && Step(b[k - 1], b[k])
    requires Midway(b, i, j, k - 1) && !Finished(b[k - 1].callers[i]) && Below(b[k - 1].flags, b[k].flags)
    ensures Midway(b, i, j, k)
  {
    StepOf(b[k - 1], b[k], i);
    if b[k].callers[i] == b[k - 1].callers[i] { StandsStill(b, i, j, k); } else { StandsOn(b, i, j, k); }
  }

  lemma StandsStill(b: seq<State>, i: nat, j: nat, k: nat)
    requires j < k < |b| && i < |b[k - 1].callers| == |b[k].callers| && b[k].callers[i] == b[k - 1].callers[i]
    requires Midway(b, i, j, k - 1) && Below(b[k - 1].flags, b[k].flags)
    ensures Midway(b, i, j, k)
  {
  }

  lemma StandsOn(b: seq<State>, i: nat, j: nat, k: nat)
    requires j < k < |b| && i < |b[k - 1].callers| == |b[k].callers| && Moves(b[k - 1], b[k], i)
    requires Midway(b, i, j, k - 1) && !Finished(b[k - 1].callers[i])
    ensures Midway(b, i, j, k)
  {
    var c, c' := b[k - 1].callers[i], b[k].callers[i];
    if c.CloseNative? { assert NativeAnswered(b, k, i, c'.err); }
    if c.StoreResult? {
      var m :| j < m <= k - 1 && NativeAnswered(b, m, i, c.err);
      assert c'.err == c.err;
    }
    if c.LoadResult? { assert FoundClosed(b, k - 1, i, c'.err); }
  }

  lemma LostKeepsResult(b: seq<State>, n: nat, i: nat, j: nat, k: nat, err: Error)
    requires IsBehaviour(b, n) && j <= k < |b| && b[j].result.Some?
    requires AnsweredSince(b, i, j, k, err) || LostSince(b, i, j, k, err)
    ensures b[j].result == Some(err)
  {
    if LostSince(b, i, j, k, err) {
      var l :| j < l < k && FoundClosed(b, l, i, err);
      NothingUndone(b, n, j, l);
      var stored := b[j].result.value;
      assert stored ==> b[l].result == Some(true);
      assert !stored ==> b[l].result == Some(false);
    } else {
      var m :| j < m <= k && NativeAnswered(b, m, i, err);
      Always(b, n, m);
      AtTheClose(b[m], i);
      NothingUndone(b, n, j, m);
    }
  }

  /** What a Close call answers, over every interleaving: the native close's answer if it made the
      native close; otherwise it found the flag set by another, and answers the result if one was
      stored then and no error if none was. A result stored before it began is what it answers. */
  lemma CloseAnswers(b: seq<State>, n: nat, i: nat, j: nat, k: nat)
    requires IsBehaviour(b, n) && i < n && InCall(b, i, j, k) && i < |b[j].callers| && b[j].callers[i].CloseCall?
    requires i < |b[k].callers| && Finished(b[k].callers[i])
    ensures b[k].callers[i].ReturnedClose?
    ensures AnsweredSince(b, i, j, k, b[k].callers[i].err) || LostSince(b, i, j, k, b[k].callers[i].err)
    ensures forall m, any: Error | j < m <= k && NativeAnswered(b, m, i, any) ::
              b[k].callers[i].err == any && b[k].result == Some(any)
    ensures b[j].result.Some? ==> b[j].result == Some(b[k].callers[i].err)
  {
    CloseStands(b, n, i, j, k);
    if b[j].result.Some? { LostKeepsResult(b, n, i, j, k, b[k].callers[i].err); }
    forall m, any: Error | j < m <= k && NativeAnswered(b, m, i, any)
      ensures b[k].callers[i].err == any && b[k].result == Some(any) {
      CloserReturnsAnswer(b, n, m, k, i, any);
    }
  }
}
