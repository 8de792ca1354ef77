/**
 atomic_add_unless of external/libdrm/xf86atomic.h, called by any number of threads, any number of
 times, with the same addend and the same "unless" value, on a counter that nobody else writes.

 Reading the counter is one step and a compare-and-swap is one step; the counter is 32 bits wide and
 wraps around.  Under every schedule the counter is its start plus the addend times the number of
 calls that returned zero (`CounterAdds`), and a call that returned non-zero has seen the counter
 reach the "unless" value for good (`UnlessIsFinal`).  A call that is left alone returns
 (`ReturnsAlone`), and a call is held up only by another that has returned zero (`HeldUpBy`).
 */
module AtomicCounter {
  import opened Bytes

  /** A counter word; negative numbers are represented by their residue. */
  type Word = x: int | 0 <= x < TWO_32

  function Wrap(x: int): Word {
    x % TWO_32
  }

  /** Where a thread is in its call. */
  datatype Point = Calling | Compared(c: Word)

  /** The counter, the threads, and the returns so far. */
  datatype State = State(value: Word, at: seq<Point>, zeros: nat, nonzeros: nat)

  datatype Call = Call(add: int, unless: Word)

  /** One access by thread `t`, or its return without one. */
  function Step(call: Call, s: State, t: nat): (r: State)
    ensures |r.at| == |s.at|
  {
    if t >= |s.at| then s
    else
      match s.at[t]
      case Calling => s.(at := s.at[t := Compared(s.value)])
      case Compared(c) =>
        if c == call.unless then s.(at := s.at[t := Calling], nonzeros := s.nonzeros + 1)
        else if s.value == c then State(Wrap(c + call.add), s.at[t := Calling], s.zeros + 1, s.nonzeros)
        else s.(at := s.at[t := Compared(s.value)])
  }

  function After(call: Call, s: State, turns: seq<nat>): State {
    if turns == [] then s
    else
      var n := |turns| - 1;
      Step(call, After(call, s, turns[..n]), turns[n])
  }

  function Start(value: Word, threads: nat): State {
    State(value, seq(threads, _ => Calling), 0, 0)
  }

  lemma WrapAdds(x: int, y: int)
    ensures Wrap(Wrap(x) + y) == Wrap(x + y)
  {
    assert Wrap(x) == x - x / TWO_32 * TWO_32;
  }

  lemma StepAdds(call: Call, start: Word, s: State, t: nat)
    requires s.value == Wrap(start + call.add * s.zeros)
    ensures var r := Step(call, s, t);
            r.value == Wrap(start + call.add * r.zeros)
  {
    var sum := call.add * s.zeros;
    WrapAdds(start + sum, call.add);
    assert call.add * (s.zeros + 1) == sum + call.add;
  }

  /** The counter accounts for every call that returned zero, and for nothing else. */
  lemma {:induction false} CounterAdds(call: Call, start: Word, threads: nat, turns: seq<nat>)
    ensures var s := After(call, Start(start, threads), turns);
            s.value == Wrap(start + call.add * s.zeros)
    decreases |turns|
  {
    if turns == [] {
    } else {
      var n := |turns| - 1;
      CounterAdds(call, start, threads, turns[..n]);
      StepAdds(call, start, After(call, Start(start, threads), turns[..n]), turns[n]);
    }
  }

  /**
   A call that runs undisturbed from its start reads the counter and, with its second access at the
   latest, returns: non-zero and without an effect at the "unless" value, zero and having added
   otherwise.
   */
  lemma CallAlone(call: Call, s: State, t: nat)
    requires t < |s.at| && s.at[t].Calling?
    ensures var r := Step(call, Step(call, s, t), t);
            && r.at == s.at
            && if s.value == call.unless then r.value == s.value && r.nonzeros == s.nonzeros + 1 && r.zeros == s.zeros
               else r.value == (s.value + call.add) % TWO_32 && r.zeros == s.zeros + 1 && r.nonzeros == s.nonzeros
  {
  }

  /** A lost compare-and-swap changes nothing but what the thread has seen last: it tries again with that. */
  lemma Retries(call: Call, s: State, t: nat, c: Word)
    requires t < |s.at| && s.at[t] == Compared(c) && c != call.unless && c != s.value
    ensures var r := Step(call, s, t);
            r.at == s.at[t := Compared(s.value)] && r.value == s.value && r.zeros == s.zeros && r.nonzeros == s.nonzeros
  {
  }

  /** Wherever a call is, it returns within two accesses of its own if nobody else runs. */
  lemma ReturnsAlone(call: Call, s: State, t: nat)
    requires t < |s.at|
    ensures var r1 := Step(call, s, t);
            var r2 := Step(call, r1, t);
            || (r1.at[t].Calling? && r1.zeros + r1.nonzeros == s.zeros + s.nonzeros + 1)
            || (r2.at[t].Calling? && r2.zeros + r2.nonzeros == s.zeros + s.nonzeros + 1)
  {
  }

  /** The counter a call has read is changed only by calls that return zero. */
  lemma {:induction false} HeldUpBy(call: Call, s: State, turns: seq<nat>)
    ensures var r := After(call, s, turns);
            r.zeros >= s.zeros && r.nonzeros >= s.nonzeros && (r.value != s.value ==> r.zeros > s.zeros)
    decreases |turns|
  {
    if turns == [] {
    } else {
      HeldUpBy(call, s, turns[..|turns| - 1]);
    }
  }

  /** A thread that holds the "unless" value, or has returned non-zero, means that the counter is there. */
  predicate Seen(call: Call, s: State) {
    && (forall t :: 0 <= t < |s.at| && s.at[t] == Compared(call.unless) ==> s.value == call.unless)
    && (s.nonzeros > 0 ==> s.value == call.unless)
  }

  lemma {:induction false} AlwaysSeen(call: Call, start: Word, threads: nat, turns: seq<nat>)
    ensures Seen(call, After(call, Start(start, threads), turns))
    decreases |turns|
  {
    if turns == [] {
    } else {
      AlwaysSeen(call, start, threads, turns[..|turns| - 1]);
    }
  }

  /** Once there, the counter is not moved off the "unless" value, and no further call returns zero. */
  lemma {:induction false} UnlessStays(call: Call, s: State, turns: seq<nat>)
    requires s.value == call.unless
    ensures var r := After(call, s, turns);
            r.value == call.unless && r.zeros == s.zeros
    decreases |turns|
  {
    if turns == [] {
    } else {
      UnlessStays(call, s, turns[..|turns| - 1]);
    }
  }

  /** After some call has returned non-zero, the counter has the "unless" value whatever runs next. */
  lemma UnlessIsFinal(call: Call, start: Word, threads: nat, turns: seq<nat>, later: seq<nat>)
    requires After(call, Start(start, threads), turns).nonzeros > 0
    ensures After(call, After(call, Start(start, threads), turns), later).value == call.unless
  {
    AlwaysSeen(call, start, threads, turns);
    UnlessStays(call, After(call, Start(start, threads), turns), later);
  }
}
