/**
 Every schedule of the threads that handle keys in bootable/recovery/ui.cpp.

 A schedule is a sequence of turns, each one critical section of one of the threads.  `AlwaysGood`
 proves of every schedule that the fields agree with the log and that the queue is in order;
 `RegistersExactly` says which releases register a key and which of them are long presses,
 `FirstInFirstOut` that keys leave the queue in the order they entered it, none being lost except
 to a flush or a full queue, and `ReturnedWereRegistered` that every key returned stands for a
 registration of its own, in the order of the registrations.
 */
module KeySchedule {
  import opened Bytes
  import opened KeyEvents
  import opened KeyQueue

  /** One turn of one thread; the timer turns are those of the timer threads. */
  datatype Turn = Key(key: nat, updown: nat) | Timer(id: nat) | Clear | Choose(view: View) | PassOn | Take | Flush

  datatype System = System(keys: KeyState, queue: QueueState)

  /**
   The input thread goes from an event that registers a key through CheckKey to the queue before it
   takes the next event.  Every other turn may come at any time.  A turn that its thread cannot take
   changes nothing.
   */
  function Step(s: System, turn: Turn): System {
    match turn
    case Key(key, updown) =>
      if s.keys.at.Ready? && key < |s.keys.pressed| then s.(keys := KeyTurn(s.keys, key, updown)) else s
    case Timer(id) => if id in s.keys.timers then s.(keys := TimerTurn(s.keys, id)) else s
    case Clear => if s.keys.at.Registered? then s.(keys := ClearTurn(s.keys)) else s
    case Choose(view) =>
      if s.keys.at.Cleared? && KEY_POWER < |s.keys.pressed| then s.(keys := ChooseTurn(s.keys, view)) else s
    case PassOn =>
      if s.keys.at.Offering? then System(s.keys.(at := Ready), OfferTurn(s.queue, s.keys.at.code)) else s
    case Take => s.(queue := TakeTurn(s.queue))
    case Flush => s.(queue := FlushTurn(s.queue))
  }

  function Start(): System {
    System(KeyState(NO_KEY, false, 0, seq(KEY_MAX + 1, _ => 0), 0, map[], Ready, [], [], []),
           QueueState([], [], [], [], []))
  }

  /** The state after a schedule. */
  function After(turns: seq<Turn>): System {
    if turns == [] then Start() else Step(After(turns[..|turns| - 1]), turns[|turns| - 1])
  }

  /** The keys that the checks sent to the queue. */
  function Sent(checks: seq<Check>): seq<int> {
    if checks == [] then []
    else
      var c := checks[|checks| - 1];
      Sent(checks[..|checks| - 1]) + if c.offer.Some? then [c.offer.value] else []
  }

  function OfferedKeys(offers: seq<Offer>): seq<int> {
    seq(|offers|, i requires 0 <= i < |offers| => offers[i].key)
  }

  /** What the checks sent has been offered to the queue, but for a key that is on its way. */
  predicate Coupled(s: System) {
    Sent(s.keys.checks) == OfferedKeys(s.queue.offers) + if s.keys.at.Offering? then [s.keys.at.code] else []
  }

  predicate GoodSystem(s: System) {
    Good(s.keys) && InOrder(s.queue) && Coupled(s)
  }

  lemma ChooseCoupled(s: System, view: View)
    requires Coupled(s) && s.keys.at.Cleared? && KEY_POWER < |s.keys.pressed|
    ensures Coupled(s.(keys := ChooseTurn(s.keys, view)))
  {
    var more := ChooseTurn(s.keys, view).checks;
    assert more[..|more| - 1] == s.keys.checks;
  }

  lemma PassOnCoupled(s: System)
    requires Coupled(s) && s.keys.at.Offering?
    ensures Coupled(System(s.keys.(at := Ready), OfferTurn(s.queue, s.keys.at.code)))
  {
    var offers := OfferTurn(s.queue, s.keys.at.code).offers;
    assert OfferedKeys(offers) == OfferedKeys(s.queue.offers) + [s.keys.at.code];
  }

  lemma StepGood(s: System, turn: Turn)
    requires GoodSystem(s)
    ensures GoodSystem(Step(s, turn))
  {
    hide Good, InOrder, Sent, OfferedKeys;
    match turn
    case Key(key, updown) =>
      GoodSize(s.keys);
      if s.keys.at == Ready && key < |s.keys.pressed| {
        KeyTurnGood(s.keys, key, updown);
      }
    case Timer(id) =>
      if id in s.keys.timers {
        TimerTurnGood(s.keys, id);
      }
    case Clear =>
      if s.keys.at.Registered? {
        ClearTurnGood(s.keys);
      }
    case Choose(view) =>
      GoodSize(s.keys);
      if s.keys.at.Cleared? {
        ChooseTurnGood(s.keys, view);
        ChooseCoupled(s, view);
      }
    case PassOn =>
      if s.keys.at.Offering? {
        OfferedGood(s.keys);
        OfferInOrder(s.queue, s.keys.at.code);
        PassOnCoupled(s);
      }
    case Take => TakeInOrder(s.queue);
    case Flush => FlushInOrder(s.queue);
  }

  /** Under every schedule the fields agree with the log, and the queue is in order. */
  lemma {:induction false} AlwaysGood(turns: seq<Turn>)
    ensures GoodSystem(After(turns))
    decreases |turns|
  {
    if turns == [] {
    } else {
      AlwaysGood(turns[..|turns| - 1]);
      StepGood(After(turns[..|turns| - 1]), turns[|turns| - 1]);
    }
  }

  /**
   Under every schedule the keys registered so far are those that the log calls for, and the
   unconditional clearing of the flag in CheckKey never meets a key that is down.
   */
  lemma RegistersExactly(turns: seq<Turn>)
    ensures var s := After(turns).keys;
            && s.registered == Registrations(s.log) && Ordered(s.log)
            && (s.at.Registered? ==> LastDown(s.log) == NO_KEY)
  {
    AlwaysGood(turns);
  }

  /**
   Under every schedule the keys that WaitKey returned are, in order, those that were offered when
   the queue was not full and were not flushed, up to those still in the queue.
   */
  lemma FirstInFirstOut(turns: seq<Turn>)
    ensures var q := After(turns).queue;
            var entered := Accepted(q.offers);
            && |entered| == |q.fates| + |q.queue| && |q.queue| <= QUEUE_MAX
            && q.returned == TakenKeys(entered, q.fates) && q.queue == entered[|q.fates|..]
  {
    AlwaysGood(turns);
  }

  /** Under every schedule the latest check asks for a reboot exactly if seven power keys were counted in a row. */
  lemma RebootsAfterSeven(turns: seq<Turn>)
    ensures var checks := After(turns).keys.checks;
            checks != [] ==> (checks[|checks| - 1].action == Reboot <==> exists from :: SevenInARow(checks, from))
  {
    AlwaysGood(turns);
    var checks := After(turns).keys.checks;
    if checks != [] {
      RebootsExactly(checks);
    }
  }

  /**
   Under every schedule each check did with its key what `CheckMeans` says, of the registration with
   its number, and saw the power key as the log says.
   */
  lemma ChecksMean(turns: seq<Turn>, i: nat)
    requires i < |After(turns).keys.checks|
    ensures var s := After(turns).keys;
            var c, seventh := s.checks[i], Seventh(s.checks[..i + 1]);
            && i < |s.registered| && c.reg == s.registered[i]
            && c.when <= |s.log| && (c.powerPressed <==> Held(s.log[..c.when], KEY_POWER))
            && (c.action == Toggle <==> Chord(c) || MetHidden(c))
            && (c.action == Reboot <==> seventh)
            && (Translated(c) ==> c.offer == Some(28))
            && (!Chord(c) && !MetHidden(c) && !Translated(c) && !seventh ==>
                  c.offer == if c.view.textAtEnd then Some(c.reg.key) else None)
            && (Chord(c) || MetHidden(c) || seventh ==> c.offer == None)
  {
    hide Tracks, PressedHeld, Registrations, Coupled, InOrder, Chord, MetHidden, Translated, Seventh;
    AlwaysGood(turns);
    CheckMeans(After(turns).keys.checks, i);
  }

  lemma {:induction false} SentAt(checks: seq<Check>, i: nat)
    requires i < |checks|
    ensures |Sent(checks[..i])| <= |Sent(checks)|
    ensures checks[i].offer.Some? ==>
              |Sent(checks[..i])| < |Sent(checks)| && Sent(checks)[|Sent(checks[..i])|] == checks[i].offer.value
    decreases |checks|
  {
    var n := |checks| - 1;
    if i == n {
    } else {
      SentAt(checks[..n], i);
      assert checks[..n][..i] == checks[..i];
    }
  }

  /**
   Under every schedule no key is lost on its way to the queue: a registered key whose check met
   visible text, and was no chord, no translated long press and no seventh power key, was offered to
   the queue, or is on its way there, behind exactly the keys that earlier checks sent.
   */
  lemma RegisteredAreOffered(turns: seq<Turn>, i: nat)
    requires i < |After(turns).keys.checks|
    ensures var s := After(turns);
            var c := s.keys.checks[i];
            var place := |Sent(s.keys.checks[..i])|;
            var offered := OfferedKeys(s.queue.offers) + if s.keys.at.Offering? then [s.keys.at.code] else [];
            c.view.textAtEnd && !Chord(c) && !MetHidden(c) && !Translated(c) && !Seventh(s.keys.checks[..i + 1]) ==>
              i < |s.keys.registered| && place < |offered| && offered[place] == s.keys.registered[i].key
  {
    hide Tracks, PressedHeld, Registrations, InOrder, Chord, MetHidden, Translated, Seventh, Decided;
    AlwaysGood(turns);
    ChecksMean(turns, i);
    SentAt(After(turns).keys.checks, i);
  }

  // ---- The input thread in place --------------------------------------------------------------------

  ghost function Value(keys: Keys, queue: KeyQueue): System
    requires queue.Valid()
    reads keys, keys.keyPressed, queue, queue.keyQueue
  {
    System(keys.Value(), queue.Value())
  }

  /** EnqueueKey where the input thread calls it. */
  method PassKeyOn(keys: Keys, queue: KeyQueue, code: int)
    requires keys.Valid() && queue.Valid() && keys.at == Offering(code)
    modifies keys`at, queue, queue.keyQueue
    ensures keys.Valid() && queue.Valid() && Value(keys, queue) == Step(old(Value(keys, queue)), PassOn)
  {
    hide Good, InOrder;
    OfferedGood(keys.Value());
    GoodSize(keys.Value());
    queue.EnqueueKey(code);
    keys.at := Ready;
  }

  /** ProcessKey as the input thread runs it when no other thread comes in between. */
  method ProcessKey(keys: Keys, queue: KeyQueue, key: nat, updown: nat, view: View)
    requires keys.Valid() && queue.Valid() && keys.at == Ready && key <= KEY_MAX
    modifies keys, keys.keyPressed, queue, queue.keyQueue
    ensures keys.Valid() && queue.Valid() && keys.at == Ready
    ensures var pressed := Step(old(Value(keys, queue)), Key(key, updown));
            Value(keys, queue) == Step(Step(Step(pressed, Clear), Choose(view)), PassOn)
  {
    hide Good, InOrder, KeyTurn, OfferTurn, Decide, LastDown, LongHeld;
    GoodSize(keys.Value());
    var register, longPress := keys.KeyEvent(key, updown);
    if register {
      keys.ClearLongPress();
      var action, offer := keys.CheckKey(key, longPress, view);
      if offer.Some? {
        PassKeyOn(keys, queue, offer.value);
      }
    }
  }

  // ---- A row that another key does not break --------------------------------------------------------

  lemma Later(turns: seq<Turn>, turn: Turn) returns (more: seq<Turn>)
    ensures After(more) == Step(After(turns), turn)
  {
    more := turns + [turn];
    assert more[..|turns|] == turns;
  }

  /** A key is pressed and released, after its timer fired if `long`. */
  lemma Register(turns: seq<Turn>, key: nat, long: bool) returns (more: seq<Turn>)
    requires After(turns).keys.at.Ready? && key <= KEY_MAX
    ensures var s, t := After(turns).keys, After(more).keys;
            && t.at == Registered(Registration(key, long)) && |t.pressed| == KEY_MAX + 1
            && t.checks == s.checks && t.powers == s.powers
  {
    hide After, Good;
    AlwaysGood(turns);
    GoodSize(After(turns).keys);
    more := Later(turns, Key(key, 1));
    if long {
      more := Later(more, Timer(After(more).keys.count));
    }
    more := Later(more, Key(key, 0));
  }

  /** The check of that key comes out as `Decide` says. */
  lemma Tap(turns: seq<Turn>, key: nat, long: bool, view: View) returns (more: seq<Turn>, power: bool)
    requires After(turns).keys.at.Ready? && key <= KEY_MAX
    ensures var s, t := After(turns).keys, After(more).keys;
            var (check, powers) := Decide(Registration(key, long), power, |t.log|, s.powers, view);
            t.at.Ready? && t.checks == s.checks + [check] && t.powers == powers
  {
    hide After, Decide, OfferTurn;
    more := Register(turns, key, long);
    more := Later(more, Clear);
    power := After(more).keys.pressed[KEY_POWER] != 0;
    more := Later(more, Choose(view));
    more := Later(more, PassOn);
  }

  lemma {:induction false} PowerTaps(n: nat, view: View) returns (turns: seq<Turn>)
    requires n < REBOOT_KEYS && !view.threeButtons && view.rebootEnabled
    ensures var s := After(turns).keys;
            && s.at.Ready? && s.powers == n == |s.checks|
            && forall i :: 0 <= i < n ==> s.checks[i].reg == Registration(KEY_POWER, false)
  {
    turns := [];
    if n == 0 {
    } else {
      var power;
      turns := PowerTaps(n - 1, view);
      turns, power := Tap(turns, KEY_POWER, false, view);
    }
  }

  /** Six power keys, a long press of another key and one more power key ask for a reboot. */
  lemma RowNotBroken() returns (turns: seq<Turn>)
    ensures var checks := After(turns).keys.checks;
            && |checks| == REBOOT_KEYS + 1 && checks[REBOOT_KEYS].action == Reboot
            && checks[REBOOT_KEYS - 1].reg == Registration(KEY_VOLUMEUP, true)
            && forall i :: 0 <= i <= REBOOT_KEYS && i != REBOOT_KEYS - 1 ==>
              checks[i].reg == Registration(KEY_POWER, false)
  {
    var view := View(false, true, true, true, true);
    var power;
    turns := PowerTaps(REBOOT_KEYS - 1, view);
    turns, power := Tap(turns, KEY_VOLUMEUP, true, view);
    turns, power := Tap(turns, KEY_POWER, false, view);
  }

  // ---- From registrations to returned keys ----------------------------------------------------------

  /** `at` names, in increasing order, the places in a sequence of length `n` that elements were picked from. */
  predicate Picks(at: seq<nat>, n: nat) {
    (forall i :: 0 <= i < |at| ==> at[i] < n) && (forall i, j :: 0 <= i < j < |at| ==> at[i] < at[j])
  }

  lemma NoPicks()
    ensures Picks([], 0)
  {
  }

  lemma PicksGrow(at: seq<nat>, n: nat)
    requires Picks(at, n)
    ensures Picks(at, n + 1) && Picks(at + [n], n + 1)
  {
  }

  lemma {:induction false} TakenPicks(put: seq<int>, fates: seq<Fate>) returns (at: seq<nat>)
    requires |fates| <= |put|
    ensures Picks(at, |fates|) && |at| == |TakenKeys(put, fates)|
    ensures forall i :: 0 <= i < |at| ==> TakenKeys(put, fates)[i] == put[at[i]]
  {
    hide Picks;
    at := [];
    if fates == [] {
      NoPicks();
    } else {
      var n := |fates| - 1;
      at := TakenPicks(put, fates[..n]);
      PicksGrow(at, n);
      if fates[n] == Taken {
        at := at + [n];
      }
    }
  }

  lemma {:induction false} AcceptedPicks(offers: seq<Offer>) returns (at: seq<nat>)
    ensures Picks(at, |offers|) && |at| == |Accepted(offers)|
    ensures forall i :: 0 <= i < |at| ==> Accepted(offers)[i] == offers[at[i]].key
  {
    at := [];
    if offers == [] {
    } else {
      var n := |offers| - 1;
      at := AcceptedPicks(offers[..n]);
      PicksGrow(at, n);
      if offers[n].waiting < QUEUE_MAX {
        at := at + [n];
      }
    }
  }

  lemma {:induction false} SentPicks(checks: seq<Check>) returns (at: seq<nat>)
    ensures Picks(at, |checks|) && |at| == |Sent(checks)|
    ensures forall i :: 0 <= i < |at| ==> checks[at[i]].offer == Some(Sent(checks)[i])
  {
    at := [];
    if checks == [] {
    } else {
      var n := |checks| - 1;
      at := SentPicks(checks[..n]);
      PicksGrow(at, n);
      if checks[n].offer.Some? {
        at := at + [n];
      }
    }
  }

  lemma Compose(outer: seq<nat>, inner: seq<nat>, n: nat) returns (at: seq<nat>)
    requires Picks(outer, |inner|) && Picks(inner, n)
    ensures Picks(at, n) && |at| == |outer| && forall i :: 0 <= i < |at| ==> at[i] == inner[outer[i]]
  {
    at := seq(|outer|, i requires 0 <= i < |outer| => inner[outer[i]]);
  }

  /**
   Under every schedule each key that WaitKey has returned stands for a registration of its own: it
   is the registered key, or the enter key for a long press.  The order is that of the registrations.
   */
  lemma ReturnedWereRegistered(turns: seq<Turn>) returns (from: seq<nat>)
    ensures var s := After(turns);
            && Picks(from, |s.keys.registered|) && |from| == |s.queue.returned|
            && forall i :: 0 <= i < |from| ==> Stands(s.keys.registered[from[i]], s.queue.returned[i])
  {
    AlwaysGood(turns);
    var s := After(turns);
    var entered := Accepted(s.queue.offers);
    var taken := TakenPicks(entered, s.queue.fates);
    var accepted := AcceptedPicks(s.queue.offers);
    var sent := SentPicks(s.keys.checks);
    var offered := Compose(taken, accepted, |s.queue.offers|);
    from := Compose(offered, sent, |s.keys.checks|);
  }
}
