/**
 The spin lock macros of external/libdrm/xf86drm.h: DRM_SPINLOCK, DRM_SPINLOCK_TAKE and
 DRM_SPINUNLOCK, run by any number of threads with distinct non-zero values.

 Each access of the lock word is one step, a compare-and-swap being one access, and a schedule says
 which thread takes the next step and, where the caller has a choice, what it does.  The results are
 about every schedule: mutual exclusion if nobody takes the lock by force (`MutualExclusion`), whose
 value the lock word may hold if somebody does (`OwnerInside`, `ClearsOwnOnly`), and that an unlock
 ends exactly if its lock is not taken between its test and its compare-and-swap
 (`UnlockEndsExactly`, `UnlockCanStick`).  `LocksWhenFree` and `UnlocksAlone` say that the macros do
 get on: a free lock is taken, a held one is waited for, and an owner who is left alone gives it back.
 */
module SpinLock {

  /** Where a thread is. */
  datatype Point =
    | Idle
    | Locking            // about to swap 0 for its value
    | Waiting            // spinning while the lock word is not 0
    | Taking             // about to read the lock word
    | Forcing(cur: int)  // about to swap what it read for its value
    | Holding
    | Unlocking          // about to test whether the lock word is still its value
    | Clearing           // about to swap its value for 0, again and again

  datatype State = State(lock: int, at: seq<Point>)

  /** What an idle thread starts, or that a holder starts to unlock. */
  datatype Choice = Lock | Take | Unlock | Nothing

  datatype Turn = Turn(thread: nat, choice: Choice)

  /** Every thread has a value of its own, and none is 0. */
  predicate IsTable(values: seq<int>) {
    && (forall i :: 0 <= i < |values| ==> values[i] != 0)
    && (forall i, j :: 0 <= i < j < |values| ==> values[i] != values[j])
  }

  predicate IsState(values: seq<int>, s: State) {
    |s.at| == |values|
  }

  /** One access by `turn.thread`. */
  function Step(values: seq<int>, s: State, turn: Turn): (r: State)
    requires IsState(values, s)
    ensures IsState(values, r)
  {
    var t := turn.thread;
    if t >= |values| then s
    else
      var mine := values[t];
      match s.at[t]
      case Idle =>
        if turn.choice == Lock then s.(at := s.at[t := Locking])
        else if turn.choice == Take then s.(at := s.at[t := Taking])
        else s
      case Locking =>
        if s.lock == 0 then State(mine, s.at[t := Holding]) else s.(at := s.at[t := Waiting])
      case Waiting =>
        if s.lock == 0 then s.(at := s.at[t := Locking]) else s
      case Taking => s.(at := s.at[t := Forcing(s.lock)])
      case Forcing(cur) =>
        if s.lock == cur then State(mine, s.at[t := Holding]) else s.(at := s.at[t := Taking])
      case Holding =>
        if turn.choice == Unlock then s.(at := s.at[t := Unlocking]) else s
      case Unlocking =>
        if s.lock == mine then s.(at := s.at[t := Clearing]) else s.(at := s.at[t := Idle])
      case Clearing =>
        if s.lock == mine then State(0, s.at[t := Idle]) else s
  }

  /** The state after a schedule. */
  function After(values: seq<int>, s: State, turns: seq<Turn>): (r: State)
    requires IsState(values, s)
    ensures IsState(values, r)
  {
    if turns == [] then s
    else
      var n := |turns| - 1;
      Step(values, After(values, s, turns[..n]), turns[n])
  }

  /** Nobody is anywhere yet. */
  function Start(values: seq<int>): (s: State)
    ensures IsState(values, s)
  {
    State(0, seq(|values|, _ => Idle))
  }

  /** The thread has got the lock and has not given it back. */
  predicate Inside(p: Point) {
    p.Holding? || p.Unlocking? || p.Clearing?
  }

  // ---- Without force ---------------------------------------------------------------------------------

  predicate Polite(turns: seq<Turn>) {
    forall i :: 0 <= i < |turns| ==> turns[i].choice != Take
  }

  /** The lock word is the value of the thread inside, and 0 if there is none. */
  predicate Exclusive(values: seq<int>, s: State) {
    && IsState(values, s)
    && (forall t :: 0 <= t < |values| ==> !s.at[t].Taking? && !s.at[t].Forcing?)
    && (forall t :: 0 <= t < |values| ==> (Inside(s.at[t]) <==> s.lock == values[t]))
    && (s.lock != 0 ==> s.lock in values)
  }

  lemma StepExclusive(values: seq<int>, s: State, turn: Turn)
    requires IsTable(values) && Exclusive(values, s) && turn.choice != Take
    ensures Exclusive(values, Step(values, s, turn))
  {
  }

  lemma {:induction false} AlwaysExclusive(values: seq<int>, turns: seq<Turn>)
    requires IsTable(values) && Polite(turns)
    ensures Exclusive(values, After(values, Start(values), turns))
    decreases |turns|
  {
    if turns == [] {
    } else {
      var n := |turns| - 1;
      AlwaysExclusive(values, turns[..n]);
      StepExclusive(values, After(values, Start(values), turns[..n]), turns[n]);
    }
  }

  /** Under every schedule without force, no two threads are inside at once. */
  lemma MutualExclusion(values: seq<int>, turns: seq<Turn>, t: nat, u: nat)
    requires IsTable(values) && Polite(turns) && t < |values| && u < |values|
    ensures var s := After(values, Start(values), turns);
            Inside(s.at[t]) && Inside(s.at[u]) ==> t == u
  {
    AlwaysExclusive(values, turns);
  }

  // ---- Getting on -------------------------------------------------------------------------------------

  /** A thread that wants the lock has it after at most two steps of its own if it is free. */
  lemma LocksWhenFree(values: seq<int>, s: State, t: nat, c: Choice, d: Choice)
    requires IsState(values, s) && t < |values| && s.lock == 0 && (s.at[t].Locking? || s.at[t].Waiting?)
    ensures var r1 := Step(values, s, Turn(t, c));
            var r2 := Step(values, r1, Turn(t, d));
            var r := if s.at[t].Locking? then r1 else r2;
            r.at == s.at[t := Holding] && r.lock == values[t]
  {
  }

  /** It changes nothing for the others and does not get in while the lock is held. */
  lemma WaitsWhileHeld(values: seq<int>, s: State, t: nat, c: Choice)
    requires IsState(values, s) && t < |values| && s.lock != 0 && (s.at[t].Locking? || s.at[t].Waiting?)
    ensures Step(values, s, Turn(t, c)) == State(s.lock, s.at[t := Waiting])
  {
  }

  /** An idle thread starts what it is told to, and a holder unlocks when it is told to. */
  lemma Starts(values: seq<int>, s: State, t: nat)
    requires IsState(values, s) && t < |values|
    ensures s.at[t].Idle? ==> Step(values, s, Turn(t, Lock)) == State(s.lock, s.at[t := Locking])
    ensures s.at[t].Idle? ==> Step(values, s, Turn(t, Take)) == State(s.lock, s.at[t := Taking])
    ensures s.at[t].Holding? ==> Step(values, s, Turn(t, Unlock)) == State(s.lock, s.at[t := Unlocking])
    ensures s.at[t].Idle? || s.at[t].Holding? ==> Step(values, s, Turn(t, Nothing)) == s
  {
  }

  /** Taking by force, undisturbed, needs two accesses, whoever has the lock. */
  lemma TakesAlone(values: seq<int>, s: State, t: nat, c: Choice, d: Choice)
    requires IsState(values, s) && t < |values| && s.at[t].Taking?
    ensures Step(values, Step(values, s, Turn(t, c)), Turn(t, d)) == State(values[t], s.at[t := Holding])
  {
    var r := Step(values, s, Turn(t, c));
    assert r.at[t] == Forcing(s.lock);
  }

  /** A forced swap that lost starts over with a new read. */
  lemma ForceRetries(values: seq<int>, s: State, t: nat, c: Choice, cur: int)
    requires IsState(values, s) && t < |values| && s.at[t] == Forcing(cur) && s.lock != cur
    ensures Step(values, s, Turn(t, c)) == State(s.lock, s.at[t := Taking])
  {
  }

  /** An unlock, undisturbed, frees the lock if it is still the thread's own, and leaves it alone otherwise. */
  lemma UnlocksAlone(values: seq<int>, s: State, t: nat, c: Choice, d: Choice)
    requires IsState(values, s) && t < |values| && s.at[t].Unlocking?
    ensures var r1 := Step(values, s, Turn(t, c));
            if s.lock == values[t] then Step(values, r1, Turn(t, d)) == State(0, s.at[t := Idle])
            else r1 == State(s.lock, s.at[t := Idle])
  {
    var r1 := Step(values, s, Turn(t, c));
    assert s.lock == values[t] ==> r1.at[t].Clearing?;
  }

  // ---- With force -------------------------------------------------------------------------------------

  /** A thread whose value the lock word holds is inside. */
  predicate Owned(values: seq<int>, s: State) {
    && IsState(values, s)
    && (forall t :: 0 <= t < |values| && s.lock == values[t] ==> Inside(s.at[t]))
    && (s.lock != 0 ==> s.lock in values)
  }

  lemma StepOwned(values: seq<int>, s: State, turn: Turn)
    requires IsTable(values) && Owned(values, s)
    ensures Owned(values, Step(values, s, turn))
  {
  }

  /** Under every schedule the lock word is 0 or the value of a thread inside. */
  lemma {:induction false} OwnerInside(values: seq<int>, turns: seq<Turn>)
    requires IsTable(values)
    ensures Owned(values, After(values, Start(values), turns))
    decreases |turns|
  {
    if turns == [] {
    } else {
      var n := |turns| - 1;
      OwnerInside(values, turns[..n]);
      StepOwned(values, After(values, Start(values), turns[..n]), turns[n]);
    }
  }

  /** The owner is the only thread whose step can take its value out of the lock word, unless by force. */
  lemma ClearsOwnOnly(values: seq<int>, s: State, turn: Turn)
    requires IsTable(values) && Owned(values, s) && s.lock != 0
    requires Step(values, s, turn).lock != s.lock
    ensures turn.thread < |values|
    ensures (s.lock == values[turn.thread] && s.at[turn.thread].Clearing?) || s.at[turn.thread] == Forcing(s.lock)
  {
  }

  // ---- Unlocking --------------------------------------------------------------------------------------

  /** `t` is about to clear a lock word that is no longer its value. */
  predicate Stuck(values: seq<int>, s: State, t: nat) {
    IsState(values, s) && t < |values| && s.at[t].Clearing? && s.lock != values[t]
  }

  /** During the schedule some thread took the lock by force. */
  predicate TakenDuring(values: seq<int>, s: State, turns: seq<Turn>)
    requires IsState(values, s)
  {
    turns != [] &&
    var n := |turns| - 1;
    var before, u := After(values, s, turns[..n]), turns[n].thread;
    TakenDuring(values, s, turns[..n]) || (u < |values| && before.at[u] == Forcing(before.lock))
  }

  /** A thread that has passed the test of its unlock still owns the lock exactly as long as nobody takes it. */
  lemma {:induction false} OwnsUntilTaken(values: seq<int>, s: State, t: nat, turns: seq<Turn>)
    requires IsTable(values) && IsState(values, s) && t < |values| && s.at[t].Clearing? && s.lock == values[t]
    requires forall i :: 0 <= i < |turns| ==> turns[i].thread != t
    ensures After(values, s, turns).at[t].Clearing?
    ensures After(values, s, turns).lock == values[t] <==> !TakenDuring(values, s, turns)
    decreases |turns|
  {
    if turns == [] {
    } else {
      OwnsUntilTaken(values, s, t, turns[..|turns| - 1]);
    }
  }

  /**
   An unlock that has passed its test ends with its next step exactly if nobody took the lock by
   force in between, and otherwise never ends.
   */
  lemma UnlockEndsExactly(values: seq<int>, s: State, t: nat, turns: seq<Turn>, c: Choice, later: seq<Turn>)
    requires IsTable(values) && IsState(values, s) && t < |values| && s.at[t].Clearing? && s.lock == values[t]
    requires forall i :: 0 <= i < |turns| ==> turns[i].thread != t
    ensures var r := After(values, s, turns);
            if TakenDuring(values, s, turns) then After(values, r, later).at[t].Clearing?
            else Step(values, r, Turn(t, c)).at[t].Idle? && Step(values, r, Turn(t, c)).lock == 0
  {
    OwnsUntilTaken(values, s, t, turns);
    if TakenDuring(values, s, turns) {
      StuckForever(values, After(values, s, turns), t, later);
    }
  }

  /** A stuck unlock never ends, under any schedule. */
  lemma {:induction false} StuckForever(values: seq<int>, s: State, t: nat, turns: seq<Turn>)
    requires IsTable(values) && Stuck(values, s, t)
    ensures Stuck(values, After(values, s, turns), t)
    decreases |turns|
  {
    if turns == [] {
    } else {
      StuckForever(values, s, t, turns[..|turns| - 1]);
    }
  }

  /** Without force no unlock is ever stuck. */
  lemma PoliteNeverStuck(values: seq<int>, turns: seq<Turn>, t: nat)
    requires IsTable(values) && Polite(turns)
    ensures !Stuck(values, After(values, Start(values), turns), t)
  {
    AlwaysExclusive(values, turns);
  }

  /** With force one can be: the second thread takes the lock while the first is between its test and its swap. */
  lemma UnlockCanStick(values: seq<int>) returns (turns: seq<Turn>)
    requires IsTable(values) && |values| >= 2
    ensures Stuck(values, After(values, Start(values), turns), 0)
  {
    turns := [];
    turns := Later(values, turns, Turn(0, Lock));
    turns := Later(values, turns, Turn(0, Nothing));
    turns := Later(values, turns, Turn(0, Unlock));
    turns := Later(values, turns, Turn(0, Nothing));
    turns := Later(values, turns, Turn(1, Take));
    turns := Later(values, turns, Turn(1, Nothing));
    turns := Later(values, turns, Turn(1, Nothing));
  }

  lemma Later(values: seq<int>, turns: seq<Turn>, turn: Turn) returns (more: seq<Turn>)
    ensures After(values, Start(values), more) == Step(values, After(values, Start(values), turns), turn)
  {
    more := turns + [turn];
    assert more[..|turns|] == turns;
  }
}
