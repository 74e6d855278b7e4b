/** The world outside the program: whether each call on it goes well. */
module Environment {

  class Env {
    const answers: nat -> bool
    /** How many calls have been made. */
    var asked: nat

    constructor (answers: nat -> bool)
      ensures this.answers == answers && asked == 0
    {
      this.answers, asked := answers, 0;
    }

    /** Whether call number k on the environment goes well; fixed from the start. */
    predicate Granted(k: nat) { answers(k) }

    /** Calls from..end all go well. */
    ghost predicate Calm(from: nat, end: nat) { forall i: nat | from <= i < end :: Granted(i) }

    /** How many of the calls from..end do not. */
    function Refusals(from: nat, end: nat): nat {
      if end <= from then 0 else Refusals(from, end - 1) + if Granted(end - 1) then 0 else 1
    }

    /** Every call since call number k went well. */
    ghost predicate CalmSince(k: nat)
      reads this
    {
      Calm(k, asked)
    }

    /** A stretch of calls is calm exactly when both of its parts are. */
    lemma Split(from: nat, mid: nat, end: nat)
      requires from <= mid <= end
      ensures Calm(from, end) <==> Calm(from, mid) && Calm(mid, end)
    {
    }

    lemma One(k: nat)
      ensures Calm(k, k + 1) <==> Granted(k)
    {
    }

    method Ask() returns (ok: bool)
      modifies this
      ensures asked == old(asked) + 1 && ok == Granted(old(asked))
    {
      ok := Granted(asked);
      asked := asked + 1;
    }
  }
}
