/** What becomes of the final status: a published exit can be overwritten, a program that has been
    given up can still be reaped, and a reaped process can still be signalled. */
module FinalStatus {
  import opened KillProtocol

  // ---------- When the exit of the program is forgotten ----------

  /** A killer whose last wait has timed out: it will set the status without looking at it. */
  predicate Resigned(t: Thread) {
    && t.role.Killer?
    && (t.pc == Waking(2, false) || t.pc == Returning(2, false) || t.pc.AtGiveUpLock? || t.pc.GivingUp?)
  }

  ghost predicate NobodyResigned(s: System) {
    forall i :: 0 <= i < |s.threads| ==> !Resigned(s.threads[i])
  }

  /** If nobody has resigned by the time the program's end is published, its status stays. */
  lemma {:induction false} ExitStays(s: System, actions: seq<Action>)
    requires Inv(s) && s.reaper == Finished && NobodyResigned(s) && Legal(s, actions)
    ensures After(s, actions).shared == s.shared
    decreases |actions|
  {
    if actions != [] {
      StepKeepsInv(s, actions[0]);
      StepKeepsExit(s, actions[0]);
      ExitStays(Next(s, actions[0]), actions[1..]);
    }
  }

  lemma StepKeepsExit(s: System, a: Action)
    requires Inv(s) && s.reaper == Finished && NobodyResigned(s) && Enabled(s, a)
    ensures var s' := Next(s, a); s'.shared == s.shared && s'.reaper == Finished && NobodyResigned(s')
  {
  }

  /** How many steps a killer that has resigned takes to overwrite the status. */
  function StepsToGiveUp(pc: Pc): nat {
    match pc
    case Waking(_, _) => 4
    case Returning(_, _) => 3
    case AtGiveUpLock => 2
    case _ => 1
  }

  function Repeated(a: Action, n: nat): seq<Action> {
    if n == 0 then [] else [a] + Repeated(a, n - 1)
  }

  /** And if somebody has, the published status can be lost, even that of a program that exited
      normally: the killer goes on to set CANNOT_KILL. */
  lemma {:induction false} ExitIsLost(s: System, i: nat)
    requires i < |s.threads| && Resigned(s.threads[i])
    requires s.waitMutex == Nobody || s.waitMutex == Caller(i)
    requires HoldsWaitMutex(s.threads[i].pc) <==> s.waitMutex == Caller(i)
    ensures var actions := Repeated(Run(i), StepsToGiveUp(s.threads[i].pc));
      Legal(s, actions) && After(s, actions).shared.status == CannotKill
    decreases StepsToGiveUp(s.threads[i].pc)
  {
    var s1, n := RunThread(s, i), StepsToGiveUp(s.threads[i].pc);
    assert Enabled(s, Run(i)) && Next(s, Run(i)) == s1;
    assert Repeated(Run(i), n)[1..] == Repeated(Run(i), n - 1);
    if n == 1 {
      assert Legal(s1, []) && After(s1, []) == s1;
    } else {
      assert Resigned(s1.threads[i]) && StepsToGiveUp(s1.threads[i].pc) == n - 1;
      ExitIsLost(s1, i);
    }
  }

  /** Do these actions lead from one state to the other? */
  ghost predicate LeadsTo(s: System, actions: seq<Action>, s': System) {
    Legal(s, actions) && After(s, actions) == s'
  }

  lemma NoActions(s: System)
    ensures LeadsTo(s, [], s)
  {
  }

  lemma {:induction false} FirstThen(s: System, a: Action, actions: seq<Action>, s': System)
    requires Enabled(s, a) && LeadsTo(Next(s, a), actions, s')
    ensures LeadsTo(s, [a] + actions, s')
  {
    hide Enabled, Next;
    assert ([a] + actions)[1..] == actions;
  }

  lemma {:induction false} InSequence(s: System, first: seq<Action>, s': System, later: seq<Action>, s'': System)
    requires LeadsTo(s, first, s') && LeadsTo(s', later, s'')
    ensures LeadsTo(s, first + later, s'')
    decreases |first|
  {
    hide Enabled, Next;
    if first == [] {
      assert first + later == later;
    } else {
      InSequence(Next(s, first[0]), first[1..], s', later, s'');
      FirstThen(s, first[0], first[1..] + later, s'');
      assert [first[0]] + (first[1..] + later) == first + later;
    }
  }

  /** Whoever has the mutex of `wait` can go on. */
  lemma HolderCanRun(s: System)
    requires Inv(s) && s.waitMutex.Caller?
    ensures s.waitMutex.i < |s.threads| && HoldsWaitMutex(s.threads[s.waitMutex.i].pc) && Enabled(s, Run(s.waitMutex.i))
  {
  }

  /** What a killer that has resigned does, it does whoever else is at it; nobody stops it. */
  lemma StaysResigned(s: System, j: nat, i: nat)
    requires Inv(s) && s.waitMutex == Caller(j) && j != i && i < |s.threads| && Resigned(s.threads[i])
    ensures var s' := RunThread(s, j); i < |s'.threads| && s'.threads[i] == s.threads[i] && s'.reaper == s.reaper
  {
  }

  /** Whoever else has the mutex of `wait` goes on until it is free. */
  lemma {:induction false} LetGo(s: System, i: nat) returns (actions: seq<Action>, s': System)
    requires Inv(s) && s.reaper == Finished && i < |s.threads| && Resigned(s.threads[i])
    ensures LeadsTo(s, actions, s') && Inv(s') && s'.reaper == Finished
    ensures i < |s'.threads| && s'.threads[i] == s.threads[i] && (s'.waitMutex == Nobody || s'.waitMutex == Caller(i))
    decreases StepsLeft(s)
  {
    hide Inv, LeadsTo, StepsLeft, RunThread, Enabled, Resigned;
    if s.waitMutex.Caller? && s.waitMutex.i != i {
      var j := s.waitMutex.i;
      HolderCanRun(s);
      StaysResigned(s, j, i);
      StepKeepsInv(s, Run(j));
      InvHasPlaces(s);
      StepTakesOne(s, Run(j));
      var rest;
      rest, s' := LetGo(Next(s, Run(j)), i);
      FirstThen(s, Run(j), rest, s');
      actions := [Run(j)] + rest;
    } else {
      FinishedHasNoMutex(s);
      NoActions(s);
      actions, s' := [], s;
    }
  }

  lemma InvHasPlaces(s: System)
    requires Inv(s)
    ensures PlacesRight(s)
  {
  }

  lemma FinishedHasNoMutex(s: System)
    requires Inv(s) && s.reaper == Finished
    ensures s.waitMutex != TheReaper
  {
  }

  /** Wherever a killer has resigned by the time the end is published, it can overwrite it. */
  lemma ExitCanBeLost(s: System) returns (actions: seq<Action>)
    requires Inv(s) && s.reaper == Finished && !NobodyResigned(s)
    ensures Legal(s, actions) && After(s, actions).shared.status == CannotKill
  {
    hide Inv, Legal, After;
    var i :| 0 <= i < |s.threads| && Resigned(s.threads[i]);
    var first, s' := LetGo(s, i);
    HoldsIffHolder(s', i);
    ExitIsLost(s', i);
    var later := Repeated(Run(i), StepsToGiveUp(s'.threads[i].pc));
    InSequence(s, first, s', later, After(s', later));
    actions := first + later;
  }

  /** So the end of the program, once published, is on record for good exactly if no killer has
      resigned by then. */
  lemma ExitKeptIff(s: System)
    requires Inv(s) && s.reaper == Finished && s.shared.status != CannotKill
    ensures NobodyResigned(s) <==>
      (forall actions :: Legal(s, actions) ==> After(s, actions).shared.status == s.shared.status)
  {
    hide Inv, Legal, After;
    if NobodyResigned(s) {
      forall actions | Legal(s, actions)
        ensures After(s, actions).shared.status == s.shared.status
      {
        ExitStays(s, actions);
      }
    } else {
      var actions := ExitCanBeLost(s);
      assert Legal(s, actions);
    }
  }

  lemma HoldsIffHolder(s: System, i: nat)
    requires Inv(s) && i < |s.threads|
    ensures HoldsWaitMutex(s.threads[i].pc) <==> s.waitMutex == Caller(i)
  {
  }

  // ---------- When a program that has been given up ends after all ----------

  /** Once the reaper is through, CANNOT_KILL stays. */
  lemma {:induction false} GivenUpStays(s: System, actions: seq<Action>)
    requires Inv(s) && s.reaper == Finished && s.shared.status == CannotKill && Legal(s, actions)
    ensures After(s, actions).shared.status == CannotKill
    decreases |actions|
  {
    if actions != [] {
      StepKeepsInv(s, actions[0]);
      StepKeepsGivenUp(s, actions[0]);
      GivenUpStays(Next(s, actions[0]), actions[1..]);
    }
  }

  lemma StepKeepsGivenUp(s: System, a: Action)
    requires s.reaper == Finished && s.shared.status == CannotKill && Enabled(s, a)
    ensures Next(s, a).reaper == Finished && Next(s, a).shared.status == CannotKill
  {
  }

  /** The next step towards the publication of the child's end. */
  function TowardsTheEnd(s: System): Action {
    if s.reaper.InWaitpid? then ChildEnds(Exited, 0)
    else if s.waitMutex.Caller? then Run(s.waitMutex.i)
    else RunReaper
  }

  lemma TowardsTheEndEnabled(s: System)
    requires Inv(s) && s.reaper != Finished
    ensures Enabled(s, TowardsTheEnd(s))
    ensures Next(s, TowardsTheEnd(s)).reaper == Finished ==> Next(s, TowardsTheEnd(s)).shared.status in {Exited, Signalled}
  {
    if s.waitMutex.Caller? {
      HolderCanRun(s);
    }
  }

  /** Until the reaper is through, the child can end, and its end be published. */
  lemma {:induction false} EndIsPublished(s: System) returns (actions: seq<Action>, s': System)
    requires Inv(s) && s.reaper != Finished
    ensures LeadsTo(s, actions, s') && s'.reaper == Finished && s'.shared.status in {Exited, Signalled}
    decreases StepsLeft(s)
  {
    hide Inv, LeadsTo, StepsLeft, Next, Enabled, TowardsTheEnd;
    var a := TowardsTheEnd(s);
    TowardsTheEndEnabled(s);
    StepKeepsInv(s, a);
    InvHasPlaces(s);
    StepTakesOne(s, a);
    var rest;
    if Next(s, a).reaper == Finished {
      NoActions(Next(s, a));
      rest, s' := [], Next(s, a);
    } else {
      rest, s' := EndIsPublished(Next(s, a));
    }
    FirstThen(s, a, rest, s');
    actions := [a] + rest;
  }

  /** A program that has been given up stays so on every continuation if and only if its end has
      been published before that; otherwise a late reap can still replace CANNOT_KILL. */
  lemma GivenUpKeptIff(s: System)
    requires Inv(s) && s.shared.status == CannotKill
    ensures s.reaper == Finished <==>
      (forall actions :: Legal(s, actions) ==> After(s, actions).shared.status == CannotKill)
  {
    hide Inv, Legal, After;
    if s.reaper == Finished {
      forall actions | Legal(s, actions)
        ensures After(s, actions).shared.status == CannotKill
      {
        GivenUpStays(s, actions);
      }
    } else {
      var actions, s' := EndIsPublished(s);
      assert Legal(s, actions);
    }
  }

  // ---------- Signals to a child that has been reaped ----------

  /** Which steps signal anything: that of a killer that has tested the status and found the program
      running. After the child has been reaped that happens too, until the reaper has the mutex to
      publish it. */
  lemma ReapedIsSignalledIff(s: System, a: Action)
    requires Inv(s) && s.reaper != InWaitpid && Enabled(s, a)
    ensures Next(s, a).shared.signals != s.shared.signals <==>
      s.reaper.AtLock? && s.shared.status == Running && a.Run? && s.threads[a.i].pc.Sending?
  {
  }

  /** Once the end has been published nothing is sent any more. */
  lemma SilentOncePublished(s: System, actions: seq<Action>)
    requires Inv(s) && s.reaper == Finished && Legal(s, actions)
    ensures After(s, actions).shared.signals == s.shared.signals && After(s, actions).shared.status != Running
  {
    NeverRunsAgain(s, actions);
  }

  // ---------- Examples ----------

  const LONE_KILLER: seq<Role> := [Killer(true, true, true)]

  /** One killer, whose waits have timeouts, and a program that runs. */
  function Lone(pc: Pc, signals: seq<Signal>, killMutex: Holder): System {
    System(Shared(Running, 0, signals, true), [Thread(LONE_KILLER[0], pc)], InWaitpid, killMutex, Nobody)
  }

  /** One attempt of the killer: it signals, waits, and its wait times out. */
  const ATTEMPT: seq<Action> := [Run(0), Run(0), Run(0), Run(0), TimeOut(0), Run(0), Run(0)]

  lemma AttemptFails(stage: nat, signals: seq<Signal>)
    requires stage < 3
    ensures LeadsTo(Lone(AtSendLock(stage), signals, Caller(0)), ATTEMPT,
                    Lone(Resumed(LONE_KILLER[0], stage, false), signals + [if stage < 2 then SigInt else SigKill], Caller(0)))
  {
    var s0 := Lone(AtSendLock(stage), signals, Caller(0));
    var s1 := Next(s0, Run(0));
    var s2 := Next(s1, Run(0));
    var s3 := Next(s2, Run(0));
    var s4 := Next(s3, Run(0));
    var s5 := Next(s4, TimeOut(0));
    var s6 := Next(s5, Run(0));
    var s7 := Next(s6, Run(0));
    assert s7 == Lone(Resumed(LONE_KILLER[0], stage, false), signals + [if stage < 2 then SigInt else SigKill], Caller(0));
  }

  const RESIGNING: seq<Action> := [Run(0), Run(0)] + ATTEMPT + ATTEMPT + ATTEMPT

  lemma KillerBegins()
    ensures LeadsTo(Started(LONE_KILLER), [Run(0), Run(0)], Lone(AtSendLock(0), [], Caller(0)))
  {
    assert Next(Next(Started(LONE_KILLER), Run(0)), Run(0)) == Lone(AtSendLock(0), [], Caller(0));
  }

  /** All three attempts fail, and the killer has resigned; the program still runs. */
  lemma KillerResigns()
    ensures LeadsTo(Started(LONE_KILLER), RESIGNING, Lone(AtGiveUpLock, ESCALATION, Caller(0)))
  {
    hide LeadsTo, Lone, Started;
    KillerBegins();
    var s0, s2 := Started(LONE_KILLER), Lone(AtSendLock(0), [], Caller(0));
    var a1, a2, a3 := Lone(AtSendLock(1), [SigInt], Caller(0)), Lone(AtSendLock(2), [SigInt, SigInt], Caller(0)),
                      Lone(AtGiveUpLock, ESCALATION, Caller(0));
    AttemptFails(0, []);
    AttemptFails(1, [SigInt]);
    AttemptFails(2, [SigInt, SigInt]);
    assert [] + [SigInt] == [SigInt] && [SigInt] + [SigInt] == [SigInt, SigInt] && [SigInt, SigInt] + [SigKill] == ESCALATION;
    InSequence(s0, [Run(0), Run(0)], s2, ATTEMPT, a1);
    InSequence(s0, [Run(0), Run(0)] + ATTEMPT, a1, ATTEMPT, a2);
    InSequence(s0, [Run(0), Run(0)] + ATTEMPT + ATTEMPT, a2, ATTEMPT, a3);
  }

  /** The end of the child, and its publication. */
  const ENDING: seq<Action> := [ChildEnds(Exited, 0), RunReaper, RunReaper]

  /** The killer gives up. */
  const GIVING_UP: seq<Action> := [Run(0), Run(0)]

  lemma EndAfterResigning() returns (s: System, s': System)
    ensures LeadsTo(Lone(AtGiveUpLock, ESCALATION, Caller(0)), ENDING, s) && LeadsTo(s, GIVING_UP, s')
    ensures s.reaper == Finished && s.shared.status == Exited && s.waitMutex == Nobody && !NobodyResigned(s)
    ensures s'.shared.status == CannotKill
  {
    var s1 := Next(Lone(AtGiveUpLock, ESCALATION, Caller(0)), ChildEnds(Exited, 0));
    s := Next(Next(s1, RunReaper), RunReaper);
    s' := Next(Next(s, Run(0)), Run(0));
    assert Resigned(s.threads[0]);
  }

  lemma EndAfterGivingUp() returns (s: System, s': System)
    ensures LeadsTo(Lone(AtGiveUpLock, ESCALATION, Caller(0)), GIVING_UP, s) && LeadsTo(s, ENDING, s')
    ensures s.shared.status == CannotKill && s'.shared.status == Exited
  {
    s := Next(Next(Lone(AtGiveUpLock, ESCALATION, Caller(0)), Run(0)), Run(0));
    var s1 := Next(s, ChildEnds(Exited, 0));
    s' := Next(Next(s1, RunReaper), RunReaper);
  }

  /** From the start: a program exits, its exit is published, and a killer that had resigned by then
      replaces it by CANNOT_KILL. */
  lemma ExitOverwritten() returns (s: System, s': System)
    ensures LeadsTo(Started(LONE_KILLER), RESIGNING + ENDING, s) && LeadsTo(s, GIVING_UP, s')
    ensures s.reaper == Finished && s.shared.status == Exited && s.waitMutex == Nobody && !NobodyResigned(s)
    ensures s'.shared.status == CannotKill
  {
    hide Lone, Started, NobodyResigned, LeadsTo;
    KillerResigns();
    s, s' := EndAfterResigning();
    InSequence(Started(LONE_KILLER), RESIGNING, Lone(AtGiveUpLock, ESCALATION, Caller(0)), ENDING, s);
  }

  /** From the start: a program is given up, ends after all, and EXITED replaces CANNOT_KILL. */
  lemma GivenUpReplaced() returns (s: System, s': System)
    ensures LeadsTo(Started(LONE_KILLER), RESIGNING + GIVING_UP, s) && LeadsTo(s, ENDING, s')
    ensures s.shared.status == CannotKill && s'.shared.status == Exited
  {
    hide Lone, Started, LeadsTo;
    KillerResigns();
    s, s' := EndAfterGivingUp();
    InSequence(Started(LONE_KILLER), RESIGNING, Lone(AtGiveUpLock, ESCALATION, Caller(0)), GIVING_UP, s);
  }

  /** From the start: the child ends and is reaped, and before that is published a killer signals its
      process number. */
  lemma ReapedIsSignalled() returns (s: System)
    ensures LeadsTo(Started(LONE_KILLER), [ChildEnds(Exited, 0), Run(0), Run(0), Run(0), Run(0)], s)
    ensures s.shared.signals == [SigInt] && s.reaper == AtLock(Exited, 0)
  {
    var s1 := Next(Started(LONE_KILLER), ChildEnds(Exited, 0));
    s := Next(Next(Next(Next(s1, Run(0)), Run(0)), Run(0)), Run(0));
  }
}
