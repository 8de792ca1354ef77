/**
 Key handling of bootable/recovery/ui.cpp.  The input thread, one timer thread per key press and
 the thread that waits for keys change the same fields, each in critical sections under one mutex.

 The state keeps, next to the fields, a log of what happened and of what came of it.  Each critical
 section is a function on states, and each keeps `Good`: the fields agree with the log, the
 registrations are those that the log calls for, and each was followed by one check of what to do
 with the key.  Class `Keys` carries out these turns in place.
 */
module KeyEvents {
  import opened Bytes

  const KEY_MAX: nat := 0x2ff
  const NO_KEY: int := -1
  const KEY_ENTER: nat := 28
  const KEY_VOLUMEUP: nat := 115
  const KEY_POWER: nat := 116

  /** How many power keys in a row ask for a reboot. */
  const REBOOT_KEYS: nat := 7

  /** A press has an identity; its timer fires under the same one. */
  datatype Event = Down(key: nat, id: nat) | Up(key: nat) | Fired(id: nat)

  /** The last press or release, if any. */
  function LastKeyEvent(log: seq<Event>): Option<Event> {
    if log == [] then None
    else
      var e := log[|log| - 1];
      if e.Fired? then LastKeyEvent(log[..|log| - 1]) else Some(e)
  }

  /** Whether the last press or release of `key` was a press. */
  predicate Held(log: seq<Event>, key: nat) {
    log != [] &&
    var e := log[|log| - 1];
    if !e.Fired? && e.key == key then e.Down? else Held(log[..|log| - 1], key)
  }

  lemma LastGrows(log: seq<Event>, e: Event)
    ensures LastKeyEvent(log + [e]) == if e.Fired? then LastKeyEvent(log) else Some(e)
  {
    assert (log + [e])[..|log|] == log;
  }

  lemma HeldGrows(log: seq<Event>, e: Event)
    ensures forall key :: Held(log + [e], key) <==> if !e.Fired? && e.key == key then e.Down? else Held(log, key)
  {
    assert (log + [e])[..|log|] == log;
  }

  /** `log[i]` is a press of `key`, and no press or release of `key` comes after it. */
  predicate PressedSince(log: seq<Event>, key: nat, i: nat) {
    && i < |log| && log[i].Down? && log[i].key == key
    && forall k :: i < k < |log| ==> log[k].Fired? || log[k].key != key
  }

  lemma {:induction false} HeldFrom(log: seq<Event>, key: nat) returns (i: nat)
    requires Held(log, key)
    ensures PressedSince(log, key, i)
  {
    i := |log| - 1;
    if !log[i].Fired? && log[i].key == key {
    } else {
      i := HeldFrom(log[..i], key);
    }
  }

  lemma {:induction false} HeldSince(log: seq<Event>, key: nat, i: nat)
    requires PressedSince(log, key, i)
    ensures Held(log, key)
    decreases |log|
  {
    if i == |log| - 1 {
    } else {
      HeldSince(log[..|log| - 1], key, i);
    }
  }

  /** A key is down exactly if it was pressed and has not been pressed or released since. */
  lemma HeldMeans(log: seq<Event>, key: nat)
    ensures Held(log, key) <==> exists i :: PressedSince(log, key, i)
  {
    if Held(log, key) {
      var i := HeldFrom(log, key);
    }
    forall i | PressedSince(log, key, i)
      ensures Held(log, key)
    {
      HeldSince(log, key, i);
    }
  }

  function Presses(log: seq<Event>): nat {
    if log == [] then 0 else Presses(log[..|log| - 1]) + if log[|log| - 1].Down? then 1 else 0
  }

  /** Presses are numbered from 1, and only timers of presses that have happened fire. */
  predicate Ordered(log: seq<Event>) {
    forall j :: 0 <= j < |log| ==>
      && (log[j].Down? ==> log[j].id == Presses(log[..j]) + 1)
      && (log[j].Fired? ==> 1 <= log[j].id <= Presses(log[..j]))
  }

  lemma OrderGrows(log: seq<Event>, e: Event)
    requires Ordered(log)
    requires e.Down? ==> e.id == Presses(log) + 1
    requires e.Fired? ==> 1 <= e.id <= Presses(log)
    ensures Ordered(log + [e]) && Presses(log + [e]) == Presses(log) + if e.Down? then 1 else 0
    ensures e.Down? ==> Fired(e.id) !in log
  {
    var more := log + [e];
    assert more[..|log|] == log;
    forall j | 0 <= j < |log|
      ensures more[..j] == log[..j] && Presses(log[..j]) <= Presses(log)
    {
      PressesGrow(log, j, |log|);
      assert log[..|log|] == log;
    }
  }

  lemma {:induction false} PressesGrow(log: seq<Event>, i: nat, j: nat)
    requires i <= j <= |log|
    ensures Presses(log[..i]) <= Presses(log[..j])
    decreases j
  {
    if i == j {
    } else {
      PressesGrow(log, i, j - 1);
      assert log[..j][..j - 1] == log[..j - 1];
    }
  }

  lemma {:induction false} LastIsLogged(log: seq<Event>)
    ensures LastKeyEvent(log).Some? ==> LastKeyEvent(log).value in log && !LastKeyEvent(log).value.Fired?
  {
    if log == [] {
    } else {
      LastIsLogged(log[..|log| - 1]);
    }
  }

  /** What key_last_down holds: the key whose press is the latest press or release. */
  function LastDown(log: seq<Event>): int {
    var last := LastKeyEvent(log);
    if last.Some? && last.value.Down? then last.value.key else NO_KEY
  }

  /** The latest press or release is a press of `key` whose timer has fired. */
  predicate LongHeld(log: seq<Event>, key: nat) {
    var last := LastKeyEvent(log);
    last.Some? && last.value.Down? && last.value.key == key && Fired(last.value.id) in log
  }

  /** `log[i]` is a press of `key`, and no press or release comes after it. */
  predicate PressedLast(log: seq<Event>, key: nat, i: nat) {
    i < |log| && log[i].Down? && log[i].key == key && forall k :: i < k < |log| ==> log[k].Fired?
  }

  lemma {:induction false} LastDownAt(log: seq<Event>, i: nat)
    requires i < |log| && !log[i].Fired? && forall k :: i < k < |log| ==> log[k].Fired?
    ensures LastKeyEvent(log) == Some(log[i])
    decreases |log|
  {
    if i == |log| - 1 {
    } else {
      LastDownAt(log[..|log| - 1], i);
    }
  }

  lemma {:induction false} LastDownFrom(log: seq<Event>) returns (i: nat)
    requires LastKeyEvent(log).Some?
    ensures i < |log| && !log[i].Fired? && log[i] == LastKeyEvent(log).value
    ensures forall k :: i < k < |log| ==> log[k].Fired?
    decreases |log|
  {
    i := |log| - 1;
    if !log[i].Fired? {
    } else {
      i := LastDownFrom(log[..i]);
    }
  }

  /** What a registering release finds: its key was pressed, and nothing was pressed or released since. */
  lemma LastDownMeans(log: seq<Event>, key: nat)
    ensures LastDown(log) == key <==> exists i :: PressedLast(log, key, i)
  {
    if LastDown(log) == key {
      var i := LastDownFrom(log);
      assert PressedLast(log, key, i);
    }
    forall i | PressedLast(log, key, i)
      ensures LastDown(log) == key
    {
      LastDownAt(log, i);
    }
  }

  /** What makes that a long press: the timer of that very press has fired since. */
  lemma LongHeldMeans(log: seq<Event>, key: nat)
    requires Ordered(log)
    ensures LongHeld(log, key) <==>
              exists i: nat, j: nat :: PressedLast(log, key, i) && i < j < |log| && log[j] == Fired(log[i].id)
  {
    if LongHeld(log, key) {
      var i := LastDownFrom(log);
      var j: nat :| 0 <= j < |log| && log[j] == Fired(log[i].id);
      PressesGrow(log, if j < i then j else i, i);
      assert PressedLast(log, key, i) && i < j;
    }
    forall i: nat, j: nat | PressedLast(log, key, i) && i < j < |log| && log[j] == Fired(log[i].id)
      ensures LongHeld(log, key)
    {
      LastDownAt(log, i);
    }
  }

  /** The fields agree with what has happened; `timers` are the keys of the presses whose timers run. */
  predicate Tracks(log: seq<Event>, lastDown: int, longPress: bool, count: nat, timers: map<nat, nat>) {
    && Ordered(log) && count == Presses(log) && lastDown == LastDown(log)
    && (forall id :: id in timers ==> 1 <= id <= count && Down(timers[id], id) in log)
    && (lastDown != NO_KEY ==> LastKeyEvent(log).value.id == count && (longPress <==> Fired(count) in log))
  }

  lemma PressTracks(log: seq<Event>, lastDown: int, longPress: bool, count: nat, timers: map<nat, nat>, key: nat)
    requires Tracks(log, lastDown, longPress, count, timers)
    ensures Tracks(log + [Down(key, count + 1)], key, false, count + 1, timers[count + 1 := key])
  {
    hide Presses, LastKeyEvent, Ordered;
    LastGrows(log, Down(key, count + 1));
    OrderGrows(log, Down(key, count + 1));
  }

  lemma ReleaseTracks(log: seq<Event>, lastDown: int, longPress: bool, count: nat, timers: map<nat, nat>, key: nat)
    requires Tracks(log, lastDown, longPress, count, timers)
    ensures Tracks(log + [Up(key)], NO_KEY, longPress, count, timers)
  {
    LastGrows(log, Up(key));
    OrderGrows(log, Up(key));
  }

  lemma FireTracks(log: seq<Event>, lastDown: int, longPress: bool, count: nat, timers: map<nat, nat>, id: nat)
    requires Tracks(log, lastDown, longPress, count, timers) && id in timers
    ensures Tracks(log + [Fired(id)], lastDown, longPress || (lastDown == timers[id] && count == id),
                   count, timers - {id})
    ensures lastDown == timers[id] && count == id <==> LastKeyEvent(log) == Some(Down(timers[id], id))
  {
    LastGrows(log, Fired(id));
    OrderGrows(log, Fired(id));
    if lastDown != NO_KEY && count == id {
      LastIsLogged(log);
      SamePress(log, LastKeyEvent(log).value, Down(timers[id], id));
    }
  }

  /** Presses with the same number are the same press. */
  lemma SamePress(log: seq<Event>, e: Event, f: Event)
    requires Ordered(log) && e in log && f in log && e.Down? && f.Down? && e.id == f.id
    ensures e == f
  {
    var i: nat :| i < |log| && log[i] == e;
    var j: nat :| j < |log| && log[j] == f;
    PressOrder(log, i, j);
    PressOrder(log, j, i);
  }

  lemma PressOrder(log: seq<Event>, i: nat, j: nat)
    requires Ordered(log) && i < |log| && j < |log| && log[i].Down? && log[j].Down?
    ensures i < j ==> log[i].id < log[j].id
  {
    if i < j {
      PressesGrow(log, i + 1, j);
      assert log[..i + 1][..i] == log[..i];
    }
  }

  lemma TracksMeans(log: seq<Event>, lastDown: int, longPress: bool, count: nat, timers: map<nat, nat>, key: nat)
    requires Tracks(log, lastDown, longPress, count, timers)
    ensures lastDown == LastDown(log) && (LongHeld(log, key) <==> lastDown == key && longPress)
  {
  }

  // ---- Keys -----------------------------------------------------------------------------------------

  datatype Registration = Registration(key: nat, longPress: bool)

  /**
   Where the input thread is: waiting for an event; in CheckKey after it registered a key, before and
   after it cleared the long-press flag; or about to hand a key to the queue.
   */
  datatype Point = Ready | Registered(reg: Registration) | Cleared(reg: Registration) | Offering(code: int)

  datatype Action = Ignore | Toggle | Reboot | Enqueue

  /**
   What CheckKey sees of the device and of the other threads: the buttons, whether reboots are
   enabled, and whether the text is visible at each of the places where it asks.
   */
  datatype View = View(threeButtons: bool, textAtToggle: bool, textAtEnter: bool, rebootEnabled: bool, textAtEnd: bool)

  /**
   One call of CheckKey: the registration it is about, what it sees, after how many events, its result
   and the key it has queued, if any.
   */
  datatype Check = Check(
    reg: Registration, powerPressed: bool, when: nat, view: View, action: Action, offer: Option<int>)

  /** The fields, the presses whose timers run, the input thread, and what has happened so far. */
  datatype KeyState = KeyState(
    lastDown: int, longPress: bool, count: nat, pressed: seq<int>, powers: nat, timers: map<nat, nat>,
    at: Point, log: seq<Event>, registered: seq<Registration>, checks: seq<Check>)

  /** CheckKey behind its critical section, with the number of power keys counted after it. */
  function Decide(reg: Registration, powerPressed: bool, when: nat, powers: nat, view: View): (Check, nat) {
    if view.threeButtons && reg.key == KEY_VOLUMEUP && powerPressed then
      (Check(reg, powerPressed, when, view, Toggle, None), powers)
    else if !view.threeButtons && reg.longPress && !view.textAtToggle then
      (Check(reg, powerPressed, when, view, Toggle, None), powers)
    else if !view.threeButtons && reg.longPress && view.textAtEnter then
      (Check(reg, powerPressed, when, view, Ignore, Some(KEY_ENTER)), powers)
    else
      var now := if reg.key != KEY_POWER then 0 else if view.rebootEnabled then powers + 1 else powers;
      if reg.key == KEY_POWER && view.rebootEnabled && now >= REBOOT_KEYS then
        (Check(reg, powerPressed, when, view, Reboot, None), now)
      else if view.textAtEnd then
        (Check(reg, powerPressed, when, view, Enqueue, Some(reg.key)), now)
      else
        (Check(reg, powerPressed, when, view, Ignore, None), now)
  }

  /** The critical section of ProcessKey. */
  function KeyTurn(s: KeyState, key: nat, updown: nat): KeyState
    requires key < |s.pressed|
  {
    if updown != 0 then
      s.(lastDown := key, longPress := false, count := s.count + 1, pressed := s.pressed[key := updown],
         timers := s.timers[s.count + 1 := key], log := s.log + [Down(key, s.count + 1)])
    else
      var register := s.lastDown == key;
      s.(lastDown := NO_KEY, pressed := s.pressed[key := updown], log := s.log + [Up(key)],
         at := if register then Registered(Registration(key, s.longPress)) else s.at,
         registered := if register then s.registered + [Registration(key, s.longPress)] else s.registered)
  }

  /** The critical section of time_key; a timer fires once. */
  function TimerTurn(s: KeyState, id: nat): KeyState
    requires id in s.timers
  {
    s.(longPress := s.longPress || (s.lastDown == s.timers[id] && s.count == id),
       timers := s.timers - {id}, log := s.log + [Fired(id)])
  }

  /** The critical section of CheckKey. */
  function ClearTurn(s: KeyState): KeyState
    requires s.at.Registered?
  {
    s.(longPress := false, at := Cleared(s.at.reg))
  }

  /** The rest of CheckKey, up to the point where a key is queued. */
  function ChooseTurn(s: KeyState, view: View): KeyState
    requires s.at.Cleared? && KEY_POWER < |s.pressed|
  {
    var (check, powers) := Decide(s.at.reg, s.pressed[KEY_POWER] != 0, |s.log|, s.powers, view);
    s.(powers := powers, checks := s.checks + [check],
       at := if check.offer.Some? then Offering(check.offer.value) else Ready)
  }

  /**
   The registrations that a log calls for: a release of the key whose press is the latest press or
   release, as a long press if the timer of that press has fired.
   */
  function Registrations(log: seq<Event>): seq<Registration> {
    if log == [] then []
    else
      var before, e := log[..|log| - 1], log[|log| - 1];
      Registrations(before)
      + if e.Up? && LastDown(before) == e.key then [Registration(e.key, LongHeld(before, e.key))] else []
  }

  lemma RegistrationsGrow(log: seq<Event>, e: Event)
    ensures Registrations(log + [e]) ==
            Registrations(log)
            + if e.Up? && LastDown(log) == e.key then [Registration(e.key, LongHeld(log, e.key))] else []
  {
    assert (log + [e])[..|log|] == log;
  }

  predicate PressedHeld(pressed: seq<int>, log: seq<Event>) {
    |pressed| == KEY_MAX + 1 && forall key :: 0 <= key < |pressed| ==> (pressed[key] != 0 <==> Held(log, key))
  }

  // ---- Checks ---------------------------------------------------------------------------------------

  /** CheckKey gets to the power key: neither a chord nor a long press was meant. */
  predicate Reaches(c: Check) {
    && !(c.view.threeButtons && c.reg.key == KEY_VOLUMEUP && c.powerPressed)
    && !(!c.view.threeButtons && c.reg.longPress && (!c.view.textAtToggle || c.view.textAtEnter))
  }

  predicate Counts(c: Check) {
    Reaches(c) && c.reg.key == 116 && c.view.rebootEnabled
  }

  predicate Resets(c: Check) {
    Reaches(c) && c.reg.key != 116
  }

  /** What consecutive_power_keys holds after the checks. */
  function Streak(checks: seq<Check>): nat {
    if checks == [] then 0
    else
      var c, before := checks[|checks| - 1], checks[..|checks| - 1];
      if Resets(c) then 0 else if Counts(c) then Streak(before) + 1 else Streak(before)
  }

  function Counted(checks: seq<Check>): nat {
    if checks == [] then 0
    else Counted(checks[..|checks| - 1]) + if Counts(checks[|checks| - 1]) then 1 else 0
  }

  /** From `from` on no check reset the count, and at least seven were counted, the last one among them. */
  predicate SevenInARow(checks: seq<Check>, from: nat) {
    && from < |checks| && Counts(checks[|checks| - 1])
    && (forall i :: from <= i < |checks| ==> !Resets(checks[i]))
    && Counted(checks[from..]) >= 7
  }

  lemma {:induction false} StreakFrom(checks: seq<Check>) returns (from: nat)
    ensures from <= |checks| && Counted(checks[from..]) == Streak(checks)
    ensures forall i :: from <= i < |checks| ==> !Resets(checks[i])
  {
    if checks == [] {
      from := 0;
    } else if Resets(checks[|checks| - 1]) {
      from := |checks|;
    } else {
      var n := |checks| - 1;
      from := StreakFrom(checks[..n]);
      assert checks[from..][..n - from] == checks[..n][from..];
    }
  }

  lemma {:induction false} StreakAtLeast(checks: seq<Check>, from: nat)
    requires from <= |checks| && forall i :: from <= i < |checks| ==> !Resets(checks[i])
    ensures Counted(checks[from..]) <= Streak(checks)
    decreases |checks|
  {
    if from == |checks| {
    } else {
      var n := |checks| - 1;
      StreakAtLeast(checks[..n], from);
      assert checks[from..][..n - from] == checks[..n][from..];
    }
  }

  /** Power and volume-up are the signal on a device with three buttons. */
  predicate Chord(c: Check) {
    c.view.threeButtons && c.reg.key == 115 && c.powerPressed
  }

  /** On other devices a long press shows the text if it is hidden ... */
  predicate MetHidden(c: Check) {
    !c.view.threeButtons && c.reg.longPress && !c.view.textAtToggle
  }

  /** ... and stands for the enter key if it is visible. */
  predicate Translated(c: Check) {
    !c.view.threeButtons && c.reg.longPress && c.view.textAtToggle && c.view.textAtEnter
  }

  /** With this check, seven power keys have been counted in a row. */
  ghost predicate Seventh(upTo: seq<Check>) {
    exists from :: SevenInARow(upTo, from)
  }

  /**
   What every check does with its key.  Chords and long presses come first, then the seventh power
   key; any other key goes to the queue exactly if the text is visible.
   */
  lemma CheckMeans(checks: seq<Check>, i: nat)
    requires Decided(checks) && i < |checks|
    ensures var c, seventh := checks[i], Seventh(checks[..i + 1]);
            && (c.action == Toggle <==> Chord(c) || MetHidden(c))
            && (c.action == Reboot <==> seventh)
            && (Translated(c) ==> c.action == Ignore && c.offer == Some(28))
            && (!Chord(c) && !MetHidden(c) && !Translated(c) && !seventh ==>
                  if c.view.textAtEnd then c.action == Enqueue && c.offer == Some(c.reg.key)
                  else c.action == Ignore && c.offer == None)
            && (Chord(c) || MetHidden(c) || seventh ==> c.offer == None)
            && (!c.view.textAtToggle && !c.view.textAtEnter && !c.view.textAtEnd ==> c.offer == None)
  {
    var upTo := checks[..i + 1];
    PrefixDecided(checks, i + 1);
    RebootsExactly(upTo);
    assert upTo[i] == checks[i];
  }

  lemma PrefixDecided(checks: seq<Check>, n: nat)
    requires Decided(checks) && n <= |checks|
    ensures Decided(checks[..n])
  {
    forall i | 0 <= i < n
      ensures checks[..n][..i] == checks[..i]
    {
    }
  }

  /** The queued key is the registered one, or the enter key for a long press. */
  predicate Stands(reg: Registration, code: int) {
    code == reg.key || (reg.longPress && code == KEY_ENTER)
  }

  /** Every check came out as the count of the checks before it calls for. */
  predicate Decided(checks: seq<Check>) {
    forall i :: 0 <= i < |checks| ==>
      Decide(checks[i].reg, checks[i].powerPressed, checks[i].when, Streak(checks[..i]), checks[i].view).0 == checks[i]
  }

  /** Every check saw the power key down exactly if it was down after the events until then. */
  predicate SawPower(checks: seq<Check>, log: seq<Event>) {
    forall i :: 0 <= i < |checks| ==>
      checks[i].when <= |log| && (checks[i].powerPressed <==> Held(log[..checks[i].when], KEY_POWER))
  }

  lemma SawPowerGrows(checks: seq<Check>, log: seq<Event>, e: Event)
    requires SawPower(checks, log)
    ensures SawPower(checks, log + [e])
  {
    forall i | 0 <= i < |checks|
      ensures (log + [e])[..checks[i].when] == log[..checks[i].when]
    {
    }
  }

  lemma SawPowerMore(checks: seq<Check>, log: seq<Event>, c: Check)
    requires SawPower(checks, log) && c.when == |log| && (c.powerPressed <==> Held(log, KEY_POWER))
    ensures SawPower(checks + [c], log)
  {
    assert log[..|log|] == log;
  }

  /** Each registration is followed by its check before the next event. */
  predicate Followed(at: Point, registered: seq<Registration>, checks: seq<Check>, powers: nat) {
    && powers == Streak(checks) && Decided(checks)
    && |registered| == |checks| + (if at.Registered? || at.Cleared? then 1 else 0)
    && (forall i :: 0 <= i < |checks| ==> checks[i].reg == registered[i])
    && (at.Registered? || at.Cleared? ==> registered[|checks|] == at.reg)
  }

  lemma ChooseFollowed(at: Point, registered: seq<Registration>, checks: seq<Check>, powers: nat,
                       powerPressed: bool, when: nat, view: View, next: Point)
    requires Followed(at, registered, checks, powers) && at.Cleared? && (next.Ready? || next.Offering?)
    ensures var (check, now) := Decide(at.reg, powerPressed, when, powers, view);
            Followed(next, registered, checks + [check], now)
  {
    var (check, now) := Decide(at.reg, powerPressed, when, powers, view);
    var more := checks + [check];
    assert more[..|checks|] == checks;
    forall i | 0 <= i < |more|
      ensures Decide(more[i].reg, more[i].powerPressed, more[i].when, Streak(more[..i]), more[i].view).0 == more[i]
    {
      if i < |checks| {
        assert more[..i] == checks[..i];
      }
    }
  }

  /**
   The last check asks for a reboot exactly if it counts and, with it, seven have counted since the
   last check that reset the count.
   */
  lemma RebootsExactly(checks: seq<Check>)
    requires Decided(checks) && checks != []
    ensures checks[|checks| - 1].action == Reboot <==> exists from :: SevenInARow(checks, from)
  {
    var n := |checks| - 1;
    var c := checks[n];
    assert checks[..n + 1] == checks;
    var from := StreakFrom(checks);
    if c.action == Reboot {
      assert SevenInARow(checks, from);
    }
    forall other | SevenInARow(checks, other)
      ensures c.action == Reboot
    {
      StreakAtLeast(checks, other);
    }
  }

  /** The fields agree with the log, and no key is down while the input thread is on its way to clear the flag. */
  predicate Good(s: KeyState) {
    && Tracks(s.log, s.lastDown, s.longPress, s.count, s.timers) && PressedHeld(s.pressed, s.log)
    && (s.at.Registered? ==> LastDown(s.log) == NO_KEY)
    && s.registered == Registrations(s.log)
    && Followed(s.at, s.registered, s.checks, s.powers) && SawPower(s.checks, s.log)
  }

  lemma GoodSize(s: KeyState)
    requires Good(s)
    ensures |s.pressed| == KEY_MAX + 1
  {
  }

  /** What the fields say about `key`. */
  lemma GoodMeans(s: KeyState, key: nat)
    requires Good(s) && key <= KEY_MAX
    ensures s.lastDown == LastDown(s.log) && (LongHeld(s.log, key) <==> s.lastDown == key && s.longPress)
    ensures |s.pressed| == KEY_MAX + 1 && (s.pressed[key] != 0 <==> Held(s.log, key))
  {
    hide Followed, Registrations;
    TracksMeans(s.log, s.lastDown, s.longPress, s.count, s.timers, key);
  }

  lemma KeyTurnGood(s: KeyState, key: nat, updown: nat)
    requires Good(s) && s.at == Ready && key <= KEY_MAX
    ensures Good(KeyTurn(s, key, updown))
  {
    hide Tracks, LongHeld, Held, Registrations, LastDown, Decided, SawPower;
    TracksMeans(s.log, s.lastDown, s.longPress, s.count, s.timers, key);
    var e := if updown != 0 then Down(key, s.count + 1) else Up(key);
    HeldGrows(s.log, e);
    RegistrationsGrow(s.log, e);
    SawPowerGrows(s.checks, s.log, e);
    if updown != 0 {
      PressTracks(s.log, s.lastDown, s.longPress, s.count, s.timers, key);
    } else {
      ReleaseTracks(s.log, s.lastDown, s.longPress, s.count, s.timers, key);
      TracksMeans(s.log + [e], NO_KEY, s.longPress, s.count, s.timers, key);
    }
  }

  lemma TimerTurnGood(s: KeyState, id: nat)
    requires Good(s) && id in s.timers
    ensures Good(TimerTurn(s, id))
  {
    hide Tracks, LongHeld, Held, Registrations, LastDown, Followed, SawPower;
    TracksMeans(s.log, s.lastDown, s.longPress, s.count, s.timers, 0);
    FireTracks(s.log, s.lastDown, s.longPress, s.count, s.timers, id);
    var t := TimerTurn(s, id);
    TracksMeans(t.log, t.lastDown, t.longPress, t.count, t.timers, 0);
    HeldGrows(s.log, Fired(id));
    RegistrationsGrow(s.log, Fired(id));
    SawPowerGrows(s.checks, s.log, Fired(id));
  }

  lemma ClearTurnGood(s: KeyState)
    requires Good(s) && s.at.Registered?
    ensures Good(ClearTurn(s))
  {
  }

  lemma ChooseTurnGood(s: KeyState, view: View)
    requires Good(s) && s.at.Cleared?
    ensures Good(ChooseTurn(s, view))
  {
    hide Tracks, PressedHeld, Registrations, Followed, SawPower;
    GoodMeans(s, KEY_POWER);
    SawPowerMore(s.checks, s.log, Decide(s.at.reg, s.pressed[KEY_POWER] != 0, |s.log|, s.powers, view).0);
    ChooseFollowed(s.at, s.registered, s.checks, s.powers, s.pressed[KEY_POWER] != 0, |s.log|, view,
                   ChooseTurn(s, view).at);
  }

  lemma OfferedGood(s: KeyState)
    requires Good(s) && s.at.Offering?
    ensures Good(s.(at := Ready))
  {
  }

  class Keys {
    var keyLastDown: int
    var keyLongPress: bool
    var keyDownCount: nat
    const keyPressed: array<int>
    var consecutivePowerKeys: nat

    ghost var timers: map<nat, nat>
    ghost var at: Point
    ghost var log: seq<Event>
    ghost var registered: seq<Registration>
    ghost var checks: seq<Check>

    ghost function Value(): KeyState
      reads this, keyPressed
    {
      KeyState(keyLastDown, keyLongPress, keyDownCount, keyPressed[..], consecutivePowerKeys,
               timers, at, log, registered, checks)
    }

    ghost predicate Valid()
      reads this, keyPressed
    {
      Good(Value())
    }

    constructor ()
      ensures Valid() && log == [] && at == Ready && fresh(keyPressed)
    {
      keyLastDown, keyLongPress, keyDownCount := NO_KEY, false, 0;
      keyPressed := new int[KEY_MAX + 1](_ => 0);
      consecutivePowerKeys := 0;
      timers, at, log, registered, checks := map[], Ready, [], [], [];
    }

    /**
     The critical section of ProcessKey; `updown` is 0 for a release.  A release registers its key
     exactly if the press or release before it was the press of that key, and it is a long press
     exactly if the timer started by that very press has fired.
     */
    method KeyEvent(key: nat, updown: nat) returns (register: bool, longPress: bool)
      requires Valid() && at == Ready && key <= KEY_MAX
      modifies this, keyPressed
      ensures Valid() && Value() == KeyTurn(old(Value()), key, updown)
      ensures register <==> updown == 0 && LastDown(old(log)) == key
      ensures longPress <==> updown == 0 && LongHeld(old(log), key)
      ensures at == if register then Registered(Registration(key, longPress)) else Ready
    {
      hide Good, LastDown, LongHeld, Held;
      KeyTurnGood(Value(), key, updown);
      GoodMeans(Value(), key);
      register, longPress := false, false;
      keyPressed[key] := updown;
      if updown != 0 {
        keyDownCount := keyDownCount + 1;
        keyLastDown := key;
        keyLongPress := false;
        log, timers := log + [Down(key, keyDownCount)], timers[keyDownCount := key];
      } else {
        if keyLastDown == key {
          longPress := keyLongPress;
          register := true;
          at, registered := Registered(Registration(key, longPress)), registered + [Registration(key, longPress)];
        }
        keyLastDown := NO_KEY;
        log := log + [Up(key)];
      }
      assert Value() == KeyTurn(old(Value()), key, updown);
    }

    /** time_key: a timer started by a press fires, once; it reports a long press if the key is still held alone. */
    method TimerFires(key: nat, count: nat) returns (longPress: bool)
      requires Valid() && count in timers && timers[count] == key
      modifies this
      ensures Valid() && Value() == TimerTurn(old(Value()), count)
      ensures longPress <==> LastKeyEvent(old(log)) == Some(Down(key, count))
    {
      hide Tracks, Held, Registrations;
      TimerTurnGood(Value(), count);
      FireTracks(log, keyLastDown, keyLongPress, keyDownCount, timers, count);
      longPress := false;
      if keyLastDown == key && keyDownCount == count {
        longPress := true;
        keyLongPress := true;
      }
      log, timers := log + [Fired(count)], timers - {count};
      assert Value() == TimerTurn(old(Value()), count);
    }

    /** The critical section of CheckKey, where the input thread goes on after it registered a key. */
    method ClearLongPress()
      requires Valid() && at.Registered?
      modifies `keyLongPress, `at
      ensures Valid() && Value() == ClearTurn(old(Value())) && !keyLongPress
    {
      hide Good;
      ClearTurnGood(Value());
      keyLongPress, at := false, Cleared(at.reg);
    }

    /** The rest of CheckKey; `offer` is the key that it or its caller is going to queue. */
    method CheckKey(key: nat, isLongPress: bool, view: View) returns (action: Action, offer: Option<int>)
      requires Valid() && at == Cleared(Registration(key, isLongPress))
      modifies `consecutivePowerKeys, `at, `checks
      ensures Valid() && Value() == ChooseTurn(old(Value()), view)
      ensures checks == old(checks) +
                [Check(Registration(key, isLongPress), Held(log, KEY_POWER), |log|, view, action, offer)]
      ensures at == if offer.Some? then Offering(offer.value) else Ready
    {
      hide Good, Held, Decide;
      ChooseTurnGood(Value(), view);
      GoodMeans(Value(), KEY_POWER);
      var power := IsKeyPressed(KEY_POWER);
      action, offer := Choose(key, isLongPress, power, view);
      checks := checks + [Check(Registration(key, isLongPress), power, |log|, view, action, offer)];
      at := if offer.Some? then Offering(offer.value) else Ready;
    }

    method Choose(key: nat, isLongPress: bool, power: bool, view: View) returns (action: Action, offer: Option<int>)
      modifies `consecutivePowerKeys
      ensures (Check(Registration(key, isLongPress), power, |log|, view, action, offer), consecutivePowerKeys)
           == Decide(Registration(key, isLongPress), power, |log|, old(consecutivePowerKeys), view)
    {
      if view.threeButtons {
        if key == KEY_VOLUMEUP && power {
          return Toggle, None;
        }
      } else {
        if isLongPress && !view.textAtToggle {
          return Toggle, None;
        }
        if isLongPress && view.textAtEnter {
          return Ignore, Some(KEY_ENTER);
        }
      }
      if key == KEY_POWER {
        if view.rebootEnabled {
          consecutivePowerKeys := consecutivePowerKeys + 1;
          if consecutivePowerKeys >= REBOOT_KEYS {
            return Reboot, None;
          }
        }
      } else {
        consecutivePowerKeys := 0;
      }
      if view.textAtEnd {
        return Enqueue, Some(key);
      }
      return Ignore, None;
    }

    method IsKeyPressed(key: nat) returns (pressed: bool)
      requires Valid() && key <= KEY_MAX
      ensures pressed <==> Held(log, key)
    {
      hide Good, Held;
      GoodMeans(Value(), key);
      assert keyPressed[key] == Value().pressed[key];
      pressed := keyPressed[key] != 0;
    }

    /** IsLongPress: while a key is held alone, whether its press has lasted until its timer fired. */
    method IsLongPress() returns (long: bool)
      requires Valid()
      ensures LastDown(log) != NO_KEY ==> (long <==> LongHeld(log, LastDown(log)))
    {
      long := keyLongPress;
    }
  }
}
