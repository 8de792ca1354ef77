/**
 The factory reset of bootable/recovery/recovery.cpp as a protocol over durable state: the
 bootloader control block, the command file in /cache, and whether /data and /cache have been
 formatted since the reset was asked for.  The power may fail between any two steps.

 The file promises that once get_args has written the control block a reboot restarts the reset
 until it is complete (lines 107-147).  `ResetHolds` proves this of every run, and `ResetCompletes`
 that the reset can be completed from wherever a run has got to.  Both need that the arguments
 still ask for the reset when they are read back; `HoldsExactly` says that this condition is exact,
 and `LongArgsLost` gives arguments that fail it.

 Writes of the control block are single steps that succeed.  Option parsing is a parameter: `asks`
 says whether the arguments after the program name ask for --wipe_data without --update_package.
 */
module RecoveryRun {
  import opened Bytes
  import opened BootMessage

  /** What survives a crash; `failed` records that a wipe has returned failure. */
  datatype Disk = Disk(command: Text, recovery: Text, file: Option<seq<Text>>, dataWiped: bool, cacheWiped: bool,
                       failed: bool)

  /** Where the device is. */
  datatype Point =
    | Off                        // about to boot
    | Reading                    // recovery has started, get_args is to come
    | Armed(args: seq<Text>)     // get_args has written the control block
    | Prepared(args: seq<Text>)  // PreWipeData succeeded
    | DataDone(args: seq<Text>)  // /data was formatted
    | CacheDone(args: seq<Text>) // and /cache
    | Returned(ok: bool)         // wipe_data returned
    | Cleared                    // finish_recovery has erased the control block
    | Finished                   // and removed the command file
    | Elsewhere                  // recovery runs, but was not asked for the reset
    | MainSystem

  datatype State = State(disk: Disk, at: Point)

  /** The parameters of a run: recovery's own name, and what its options mean. */
  datatype Program = Program(name: Text, asks: seq<Text> -> bool)

  function ArgsAt(p: Program, d: Disk): (args: seq<Text>)
    ensures args != []
  {
    Effective([p.name], d.recovery, d.file)
  }

  predicate Crash(s: State, t: State) {
    t == s.(at := Off)
  }

  /** The bootloader starts recovery if the control block says so; the user may have it do so anyway. */
  predicate Boot(s: State, t: State) {
    && s.at == Off
    && (t == s.(at := Reading) || (s.disk.command != BOOT_RECOVERY && t == s.(at := MainSystem)))
  }

  predicate ReadArgs(p: Program, s: State, t: State) {
    && s.at == Reading
    && var args := ArgsAt(p, s.disk);
       && t.disk == s.disk.(command := BOOT_RECOVERY, recovery := Stored(args))
       && t.at == if p.asks(args[1..]) then Armed(args) else Elsewhere
  }

  /** A step of wipe_data that fails makes it return failure; formatting /cache may lose the command file. */
  predicate Fail(s: State, t: State) {
    && (s.at.Armed? || s.at.Prepared? || s.at.DataDone? || s.at.CacheDone?)
    && t.at == Returned(false)
    && (t.disk == s.disk.(failed := true) || (s.at.DataDone? && t.disk == s.disk.(failed := true, file := None)))
  }

  predicate Wipe(s: State, t: State) {
    match s.at
    case Armed(args) => t == s.(at := Prepared(args))
    case Prepared(args) => t == State(s.disk.(dataWiped := true), DataDone(args))
    case DataDone(args) => t == State(s.disk.(cacheWiped := true, file := None), CacheDone(args))
    case CacheDone(args) => t == s.(at := Returned(true))
    case _ => false
  }

  /** Any other action, which may format volumes too. */
  predicate Act(s: State, t: State) {
    && s.at == Elsewhere && t.at.Returned? && t.disk.command == s.disk.command && t.disk.recovery == s.disk.recovery
    && NothingUndone(s.disk, t.disk)
  }

  predicate NothingUndone(d: Disk, e: Disk) {
    (d.dataWiped ==> e.dataWiped) && (d.cacheWiped ==> e.cacheWiped) && (d.failed ==> e.failed)
  }

  /** The steps of finish_recovery, which prompt_and_wait repeats between the user's choices. */
  predicate Finish(s: State, t: State) {
    match s.at
    case Returned(_) => t == State(s.disk.(command := [], recovery := []), Cleared)
    case Cleared => t == State(s.disk.(file := None), Finished) || t == s.(at := Finished)
    case Finished => t == s.(at := Off) || Chosen(s, t)
    case _ => false
  }

  /**
   The user has chosen from the menu, perhaps to wipe, or to install from the SD card, which makes
   the control block boot recovery without arguments; finish_recovery comes next.
   */
  predicate Chosen(s: State, t: State) {
    && t.at.Returned? && NothingUndone(s.disk, t.disk)
    && ((t.disk.command == s.disk.command && t.disk.recovery == s.disk.recovery)
        || (t.disk.command == BOOT_RECOVERY && t.disk.recovery == RECOVERY + [NEWLINE]))
  }

  predicate Next(p: Program, s: State, t: State) {
    Crash(s, t) || Boot(s, t) || ReadArgs(p, s, t) || Fail(s, t) || Wipe(s, t) || Act(s, t) || Finish(s, t)
  }

  predicate IsRun(p: Program, run: seq<State>) {
    run != [] && forall i :: 0 < i < |run| ==> Next(p, run[i - 1], run[i])
  }

  // ---- The reset survives ----------------------------------------------------------------------------

  /** Both volumes have been formatted, or the wipe has returned failure. */
  predicate Done(d: Disk) {
    (d.dataWiped && d.cacheWiped) || d.failed
  }

  /** The control block boots recovery with what was stored for `args`. */
  predicate Holds(d: Disk, args: seq<Text>)
    requires args != []
  {
    d.command == BOOT_RECOVERY && d.recovery == Stored(args)
  }

  /** The argument list as it is read back after a crash. */
  function ReadAgain(args: seq<Text>): (again: seq<Text>)
    requires Storable(args)
    ensures Storable(again)
  {
    StoredAgain(args);
    Found(Stored(args)).value
  }

  /** `args` ask for the reset, and still do so when they are read back from the control block. */
  predicate Lasting(p: Program, args: seq<Text>) {
    Storable(args) && p.asks(args[1..]) && p.asks(ReadAgain(args)[1..])
  }

  /** What is true at every point after get_args has stored `args`, unless the reset is done. */
  predicate Pending(s: State, args: seq<Text>)
    requires args != []
  {
    && Holds(s.disk, args)
    && match s.at
       case DataDone(_) => s.disk.dataWiped
       case CacheDone(_) => false
       case Returned(_) => false
       case Cleared => false
       case Finished => false
       case Elsewhere => false
       case MainSystem => false
       case _ => true
  }

  lemma StepKeeps(p: Program, args: seq<Text>, s: State, t: State)
    requires Lasting(p, args) && Next(p, s, t)
    requires Done(s.disk) || Pending(s, args)
    ensures Done(t.disk) || Pending(t, args)
  {
    if !Done(s.disk) && ReadArgs(p, s, t) {
      Restarted(args, p.name, s.disk.file);
    }
  }

  /**
   Over every run, with crashes anywhere: from when the control block was written, it keeps
   recovery booting with the same stored arguments, and the main system is not started, until
   /data and /cache have both been formatted or the wipe has returned failure.
   */
  lemma {:induction false} ResetHolds(p: Program, args: seq<Text>, run: seq<State>, i: nat)
    requires Lasting(p, args) && IsRun(p, run) && i < |run|
    requires run[0].at == Armed(args) && Holds(run[0].disk, args)
    ensures Done(run[i].disk) || (Holds(run[i].disk, args) && run[i].at != MainSystem)
    ensures Done(run[i].disk) || Pending(run[i], args)
  {
    if i == 0 {
    } else {
      ResetHolds(p, args, run, i - 1);
      StepKeeps(p, args, run[i - 1], run[i]);
    }
  }

  /** Recovery is armed only by get_args, which has then written the control block. */
  lemma ArmedHolds(p: Program, s: State, t: State, args: seq<Text>)
    requires Next(p, s, t) && t.at == Armed(args)
    ensures s.at == Reading && args == ArgsAt(p, s.disk) && p.asks(args[1..]) && Holds(t.disk, args)
  {
  }

  /**
   Over every run, whatever it started from: once recovery has found that it is asked for the reset,
   the main system is not started until the reset is done.
   */
  lemma FromArming(p: Program, args: seq<Text>, run: seq<State>, j: nat, i: nat)
    requires Lasting(p, args) && IsRun(p, run) && 0 < j <= i < |run| && run[j].at == Armed(args)
    ensures Done(run[i].disk) || (Holds(run[i].disk, args) && run[i].at != MainSystem)
  {
    ArmedHolds(p, run[j - 1], run[j], args);
    var rest := run[j..];
    forall k | 0 < k < |rest|
      ensures Next(p, rest[k - 1], rest[k])
    {
      assert rest[k - 1] == run[j + k - 1] && rest[k] == run[j + k];
    }
    ResetHolds(p, args, rest, i - j);
  }

  /** Arguments whose lines fit into the field are read back as they were, so they last. */
  lemma FittingLasts(p: Program, args: seq<Text>)
    requires Storable(args) && p.asks(args[1..]) && |Lines([RECOVERY] + args[1..])| <= RECOVERY_SIZE
    ensures Lasting(p, args)
  {
    StoredAgain(args);
    ReadBack(args);
    assert ([RECOVERY] + args[1..])[1..] == args[1..];
  }

  /** If what is read back does not ask for the reset, one crash loses it: the main system starts with nothing done. */
  lemma LostReset(p: Program, args: seq<Text>, d: Disk) returns (run: seq<State>)
    requires Storable(args) && !p.asks(ReadAgain(args)[1..]) && Holds(d, args) && !Done(d)
    ensures IsRun(p, run) && run[0] == State(d, Armed(args))
    ensures var last := run[|run| - 1];
            last.at == MainSystem && !Done(last.disk) && !Holds(last.disk, args)
  {
    StoredAgain(args);
    Restarted(args, p.name, d.file);
    var e := d.(command := [], recovery := []);
    run := [State(d, Armed(args)), State(d, Off), State(d, Reading), State(d, Elsewhere), State(d, Returned(true)),
            State(e, Cleared), State(e, Finished), State(e, Off), State(e, MainSystem)];
    assert Crash(run[0], run[1]) && Boot(run[1], run[2]) && ReadArgs(p, run[2], run[3]) && Act(run[3], run[4]);
    assert Finish(run[4], run[5]) && Finish(run[5], run[6]) && Finish(run[6], run[7]) && Boot(run[7], run[8]);
  }

  /** At every point of a run the reset is done or the control block holds it and the main system is not started. */
  ghost predicate RunHolds(p: Program, args: seq<Text>, run: seq<State>)
    requires args != []
  {
    IsRun(p, run) && run[0].at == Armed(args) && Holds(run[0].disk, args) ==>
      forall i :: 0 <= i < |run| ==> Done(run[i].disk) || (Holds(run[i].disk, args) && run[i].at != MainSystem)
  }

  /** Every run holds the reset exactly if the arguments still ask for it when they are read back. */
  lemma HoldsExactly(p: Program, args: seq<Text>)
    requires Storable(args) && p.asks(args[1..])
    ensures p.asks(ReadAgain(args)[1..]) <==> forall run :: RunHolds(p, args, run)
  {
    if p.asks(ReadAgain(args)[1..]) {
      forall run: seq<State>
        ensures RunHolds(p, args, run)
      {
        if IsRun(p, run) && run[0].at == Armed(args) && Holds(run[0].disk, args) {
          forall i | 0 <= i < |run|
            ensures Done(run[i].disk) || (Holds(run[i].disk, args) && run[i].at != MainSystem)
          {
            ResetHolds(p, args, run, i);
          }
        }
      }
    } else {
      var run := LostReset(p, args, Disk(BOOT_RECOVERY, Stored(args), None, false, false, false));
      assert !RunHolds(p, args, run) by {
        var last := |run| - 1;
        assert run[last].at == MainSystem && !Done(run[last].disk);
      }
    }
  }

  /** --wipe_data */
  const WIPE_DATA: Text := [45, 45, 119, 105, 112, 101, 95, 100, 97, 116, 97]

  /** A long argument before the option: the option does not fit into the field. */
  function LongArgs(name: Text): seq<Text> {
    [name, seq<Byte>(760, _ => 97), WIPE_DATA]
  }

  /** Such arguments ask for the reset, and do not when they are read back. */
  lemma LongArgsLost(name: Text)
    ensures Storable(LongArgs(name)) && WIPE_DATA in LongArgs(name)[1..] && WIPE_DATA !in ReadAgain(LongArgs(name))[1..]
  {
    var args := LongArgs(name);
    var long := seq<Byte>(760, _ => 97);
    assert args[1..] == [long, WIPE_DATA] && args[1..][0] == long && args[1..][1] == WIPE_DATA;
    assert IsArg(long) && IsArg(WIPE_DATA);
    var all := [RECOVERY] + args[1..];
    assert Lines(all) == RECOVERY + [NEWLINE] + Lines(all[1..]);
    assert all[1..] == [long, WIPE_DATA] && all[1..][1..] == [WIPE_DATA];
    assert |Lines(all[1..])| >= 761;
    FoundInStored(args);
    assert |Stored(args)| == LIMIT;
    assert Cut(all, LIMIT) == [RECOVERY] + Cut(all[1..], LIMIT - 9);
    assert Cut(all[1..], LIMIT - 9) == [long[..LIMIT - 9]];
    assert long[..LIMIT - 9][0] == 97;
  }

  // ---- The reset can be completed ---------------------------------------------------------------------

  /** The step that is taken if nothing goes wrong. */
  function Onward(p: Program, s: State): State {
    match s.at
    case Off => if s.disk.command == BOOT_RECOVERY then s.(at := Reading) else s.(at := MainSystem)
    case Reading =>
      var args := ArgsAt(p, s.disk);
      State(s.disk.(command := BOOT_RECOVERY, recovery := Stored(args)),
            if p.asks(args[1..]) then Armed(args) else Elsewhere)
    case Armed(args) => s.(at := Prepared(args))
    case Prepared(args) => State(s.disk.(dataWiped := true), DataDone(args))
    case DataDone(args) => State(s.disk.(cacheWiped := true, file := None), CacheDone(args))
    case CacheDone(args) => s.(at := Returned(true))
    case Returned(_) => State(s.disk.(command := [], recovery := []), Cleared)
    case Cleared => State(s.disk.(file := None), Finished)
    case Finished => s.(at := Off)
    case Elsewhere => s
    case MainSystem => s
  }

  /** How many steps the reset still takes from a pending point. */
  function Distance(s: State): nat {
    match s.at
    case Off => 10
    case Reading => 9
    case Armed(_) => 8
    case Prepared(_) => 7
    case DataDone(_) => 6
    case CacheDone(_) => 5
    case Returned(_) => 4
    case Cleared => 3
    case Finished => 2
    case _ => 0
  }

  /** The straight path after the volumes have been formatted. */
  predicate Closing(s: State) {
    && s.disk.dataWiped && s.disk.cacheWiped
    && (s.at.CacheDone? || s.at.Returned? || s.at.Cleared? || s.at.Finished? || s.at == MainSystem || s.at == Off)
    && (s.at.CacheDone? || s.at.Returned? || (s.disk.command == [] && s.disk.recovery == []))
    && (s.at.Finished? || s.at == Off || s.at == MainSystem ==> s.disk.file == None)
  }

  function Remaining(s: State): nat {
    if s.at == Off && s.disk.dataWiped && s.disk.cacheWiped && s.disk.command == [] then 1 else Distance(s)
  }

  lemma OnwardStep(p: Program, args: seq<Text>, s: State)
    requires Lasting(p, args) && (Pending(s, args) || Closing(s)) && s.at != MainSystem
    ensures var t := Onward(p, s);
            Next(p, s, t) && (Pending(t, args) || Closing(t)) && Remaining(t) < Remaining(s)
  {
    var t := Onward(p, s);
    if s.at == Reading && Pending(s, args) {
      Restarted(args, p.name, s.disk.file);
      assert ReadArgs(p, s, t);
    }
    assert s.at == Off ==> Boot(s, t);
    assert s.at.Armed? || s.at.Prepared? || s.at.DataDone? || s.at.CacheDone? ==> Wipe(s, t);
    assert s.at.Returned? || s.at.Cleared? || s.at.Finished? ==> Finish(s, t);
  }

  /** Wherever a pending reset has got to, it can be completed, and then the request is gone. */
  lemma {:induction false} ResetCompletes(p: Program, args: seq<Text>, s: State) returns (run: seq<State>)
    requires Lasting(p, args) && (Pending(s, args) || Closing(s))
    ensures IsRun(p, run) && run[0] == s && |run| <= Remaining(s) + 1
    ensures var last := run[|run| - 1];
            && last.at == MainSystem && last.disk.dataWiped && last.disk.cacheWiped && last.disk.command == []
            && last.disk.file == None
    decreases Remaining(s)
  {
    run := [s];
    if s.at == MainSystem {
    } else {
      OnwardStep(p, args, s);
      var rest := ResetCompletes(p, args, Onward(p, s));
      run := [s] + rest;
    }
  }
}
