/** Any number of threads that wait for the program or kill it, and the thread that reaps it: a
    transition system over their program points, two mutexes and one condition. */
module KillProtocol {

  datatype Status = NotStarted | Running | Exited | Signalled | CannotKill

  datatype Signal = SigInt | SigKill

  /** What the threads share: the status, the wait status of the child, the signals sent to the
      child so far, and whether the pipe from it is still open. */
  datatype Shared = Shared(status: Status, waitStatus: int, signals: seq<Signal>, pipeOpen: bool) {

    function Send(signal: Signal): Shared {
      if status == Running then this.(signals := signals + [signal]) else this
    }

    function Reaped(how: Status, waitStatus: int): Shared {
      this.(status := how, waitStatus := waitStatus)
    }

    /** The last resort of `kill`: it does not look at the status again. */
    function Abandoned(): Shared {
      this.(status := CannotKill, pipeOpen := false)
    }
  }

  /** A caller of `wait` or of `kill`; `timed` says which of its waits have a timeout. A wait
      without one (a timeout of zero or less) lasts until the status is not RUNNING. */
  datatype Role = Waiter(timed: bool) | Killer(first: bool, second: bool, third: bool)

  /** Where a thread stands. `stage` numbers the three attempts of a killer, from 0. */
  datatype Pc =
    | Check                                // kill: about to look at the status, without a lock
    | AtKillLock                           // kill: wants _killMutex
    | AtSendLock(stage: nat)               // _killIfRunning: wants _waitMutex
    | Sending(stage: nat)                  // ... has it
    | AtWaitLock(stage: nat)               // wait: wants _waitMutex
    | Testing(stage: nat)                  // ... has it, about to look at the status
    | Asleep(stage: nat)                   // ... gave it up, waits on the condition
    | Waking(stage: nat, result: bool)     // ... was signalled (true) or timed out, wants it back
    | Returning(stage: nat, result: bool)  // ... has it, about to return the result
    | AtGiveUpLock                         // kill: wants _waitMutex for the last time
    | GivingUp                             // ... has it
    | Unlocking                            // kill: about to release _killMutex
    | Done(result: bool)

  datatype Thread = Thread(role: Role, pc: Pc)

  datatype ReaperPc = InWaitpid | AtLock(how: Status, waitStatus: int) | Publishing(how: Status, waitStatus: int) | Finished

  datatype Holder = Nobody | TheReaper | Caller(i: nat)

  datatype System = System(shared: Shared, threads: seq<Thread>, reaper: ReaperPc, killMutex: Holder, waitMutex: Holder)

  datatype Action =
    | Run(i: nat)                              // a thread takes its next step
    | TimeOut(i: nat)                          // a sleeping thread's wait times out
    | ChildEnds(how: Status, waitStatus: int)  // waitpid returns
    | RunReaper                                // the reaper takes its next step

  const ESCALATION: seq<Signal> := [SigInt, SigInt, SigKill]

  predicate Timed(role: Role, stage: nat) {
    match role
    case Waiter(timed) => timed
    case Killer(first, second, third) => if stage == 0 then first else if stage == 1 then second else third
  }

  /** A thread as its call begins. */
  function Entering(role: Role): Thread {
    Thread(role, if role.Waiter? then AtWaitLock(0) else Check)
  }

  /** The system once the program has been started. */
  function Started(roles: seq<Role>): System {
    System(Shared(Running, 0, [], true), seq(|roles|, i requires 0 <= i < |roles| => Entering(roles[i])), InWaitpid, Nobody, Nobody)
  }

  predicate Enabled(s: System, a: Action) {
    match a
    case Run(i) =>
      && i < |s.threads|
      && (match s.threads[i].pc
          case AtKillLock => s.killMutex == Nobody
          case AtSendLock(_) => s.waitMutex == Nobody
          case AtWaitLock(_) => s.waitMutex == Nobody
          case Waking(_, _) => s.waitMutex == Nobody
          case AtGiveUpLock => s.waitMutex == Nobody
          case Asleep(_) => false
          case Done(_) => false
          case _ => true)
    case TimeOut(i) => i < |s.threads| && s.threads[i].pc.Asleep? && Timed(s.threads[i].role, s.threads[i].pc.stage)
    case ChildEnds(how, _) => s.reaper == InWaitpid && (how == Exited || how == Signalled)
    case RunReaper => s.reaper.Publishing? || (s.reaper.AtLock? && s.waitMutex == Nobody)
  }

  function At(s: System, i: nat, pc: Pc): System
    requires i < |s.threads|
  {
    s.(threads := s.threads[i := s.threads[i].(pc := pc)])
  }

  /** _waitCond->broadcast(): every sleeping thread wakes. */
  function Broadcast(threads: seq<Thread>): (r: seq<Thread>)
    ensures |r| == |threads|
    ensures forall i :: 0 <= i < |r| ==> r[i].role == threads[i].role
    ensures forall i :: 0 <= i < |r| ==>
      r[i].pc == if threads[i].pc.Asleep? then Waking(threads[i].pc.stage, true) else threads[i].pc
  {
    if threads == [] then []
    else
      var t := threads[0];
      [if t.pc.Asleep? then t.(pc := Waking(t.pc.stage, true)) else t] + Broadcast(threads[1..])
  }

  /** Where a thread goes on once `wait` has returned. */
  function Resumed(role: Role, stage: nat, result: bool): Pc {
    if role.Waiter? then Done(result)
    else if result then Unlocking
    else if stage < 2 then AtSendLock(stage + 1)
    else AtGiveUpLock
  }

  function RunThread(s: System, i: nat): System
    requires i < |s.threads|
  {
    match s.threads[i].pc
    case Check => At(s, i, if s.shared.status == Running then AtKillLock else Done(true))
    case AtKillLock => At(s, i, AtSendLock(0)).(killMutex := Caller(i))
    case AtSendLock(stage) => At(s, i, Sending(stage)).(waitMutex := Caller(i))
    case Sending(stage) =>
      At(s, i, AtWaitLock(stage)).(shared := s.shared.Send(if stage < 2 then SigInt else SigKill), waitMutex := Nobody)
    case AtWaitLock(stage) => At(s, i, Testing(stage)).(waitMutex := Caller(i))
    case Testing(stage) =>
      if s.shared.status == Running then At(s, i, Asleep(stage)).(waitMutex := Nobody)
      else At(s, i, Returning(stage, true))
    case Waking(stage, result) => At(s, i, Returning(stage, result)).(waitMutex := Caller(i))
    case Returning(stage, result) =>
      At(s, i, Resumed(s.threads[i].role, stage, result)).(waitMutex := Nobody)
    case AtGiveUpLock => At(s, i, GivingUp).(waitMutex := Caller(i))
    case GivingUp =>
      var s' := At(s, i, Unlocking);
      s'.(shared := s.shared.Abandoned(), threads := Broadcast(s'.threads), waitMutex := Nobody)
    case Unlocking => At(s, i, Done(true)).(killMutex := Nobody)
    case Asleep(_) => s
    case Done(_) => s
  }

  function Next(s: System, a: Action): System
    requires Enabled(s, a)
  {
    match a
    case Run(i) => RunThread(s, i)
    case TimeOut(i) => At(s, i, Waking(s.threads[i].pc.stage, false))
    case ChildEnds(how, waitStatus) => s.(reaper := AtLock(how, waitStatus))
    case RunReaper =>
      if s.reaper.AtLock? then s.(reaper := Publishing(s.reaper.how, s.reaper.waitStatus), waitMutex := TheReaper)
      else
        s.(shared := s.shared.Reaped(s.reaper.how, s.reaper.waitStatus), threads := Broadcast(s.threads),
           reaper := Finished, waitMutex := Nobody)
  }

  // ---------- The invariant ----------

  predicate HoldsWaitMutex(pc: Pc) {
    pc.Sending? || pc.Testing? || pc.Returning? || pc.GivingUp?
  }

  predicate HoldsKillMutex(t: Thread) {
    t.role.Killer? && !t.pc.Check? && !t.pc.AtKillLock? && !t.pc.Done?
  }

  /** Points a thread can be at, given its role. */
  predicate WellPlaced(t: Thread) {
    match t.pc
    case AtWaitLock(stage) => if t.role.Waiter? then stage == 0 else stage < 3
    case Testing(stage) => if t.role.Waiter? then stage == 0 else stage < 3
    case Asleep(stage) => if t.role.Waiter? then stage == 0 else stage < 3
    case Waking(stage, _) => if t.role.Waiter? then stage == 0 else stage < 3
    case Returning(stage, _) => if t.role.Waiter? then stage == 0 else stage < 3
    case AtSendLock(stage) => t.role.Killer? && stage < 3
    case Sending(stage) => t.role.Killer? && stage < 3
    case Done(result) => t.role.Killer? ==> result
    case _ => t.role.Killer?
  }

  /** What a thread's program point says about the status: only while the program runs does anybody
      sleep, and whoever has been told that it does not has been told the truth. */
  predicate RightAbout(t: Thread, running: bool) {
    match t.pc
    case Asleep(_) => running
    case Waking(_, result) => result ==> !running
    case Returning(_, result) => result ==> !running
    case Unlocking => !running
    case Done(result) => result ==> !running
    case _ => true
  }

  /** How many signals have been sent, given where the thread in `kill` stands. */
  predicate SentRight(pc: Pc, running: bool, sent: nat) {
    match pc
    case AtSendLock(stage) => running || stage > 0 ==> sent == stage
    case Sending(stage) => running || stage > 0 ==> sent == stage
    case AtWaitLock(stage) => running ==> sent == stage + 1
    case Testing(stage) => running ==> sent == stage + 1
    case Asleep(stage) => sent == stage + 1
    case Waking(stage, result) => !result ==> sent == stage + 1
    case Returning(stage, result) => !result ==> sent == stage + 1
    case AtGiveUpLock => sent == 3
    case GivingUp => sent == 3
    case _ => true
  }

  ghost predicate PlacesRight(s: System) {
    forall i :: 0 <= i < |s.threads| ==> WellPlaced(s.threads[i])
  }

  ghost predicate WaitMutexRight(s: System) {
    && (forall i :: 0 <= i < |s.threads| ==> (HoldsWaitMutex(s.threads[i].pc) <==> s.waitMutex == Caller(i)))
    && (s.reaper.Publishing? <==> s.waitMutex == TheReaper)
    && (s.waitMutex.Caller? ==> s.waitMutex.i < |s.threads|)
  }

  ghost predicate KillMutexRight(s: System) {
    && (forall i :: 0 <= i < |s.threads| ==> (HoldsKillMutex(s.threads[i]) <==> s.killMutex == Caller(i)))
    && (s.killMutex.Caller? ==> s.killMutex.i < |s.threads|) && s.killMutex != TheReaper
  }

  ghost predicate StatusRight(s: System) {
    && s.shared.status != NotStarted
    && (forall i :: 0 <= i < |s.threads| ==> RightAbout(s.threads[i], s.shared.status == Running))
    && (if s.reaper == Finished then s.shared.status != Running
        else s.shared.status == Running || s.shared.status == CannotKill)
    && (s.reaper.AtLock? || s.reaper.Publishing? ==> s.reaper.how == Exited || s.reaper.how == Signalled)
  }

  ghost predicate SignalsRight(s: System) {
    && s.shared.signals <= ESCALATION
    && (s.shared.status == Running && s.killMutex == Nobody ==> s.shared.signals == [])
    && (s.shared.status == CannotKill ==> s.shared.signals == ESCALATION)
    && (s.killMutex.Caller? && s.killMutex.i < |s.threads| ==>
          SentRight(s.threads[s.killMutex.i].pc, s.shared.status == Running, |s.shared.signals|))
  }

  ghost predicate Inv(s: System) {
    PlacesRight(s) && WaitMutexRight(s) && KillMutexRight(s) && StatusRight(s) && SignalsRight(s)
  }

  lemma StartedIsRight(roles: seq<Role>)
    ensures Inv(Started(roles))
  {
  }

  lemma RunKeepsPlaces(s: System, i: nat)
    requires PlacesRight(s) && Enabled(s, Run(i))
    ensures PlacesRight(RunThread(s, i))
  {
    assert WellPlaced(s.threads[i]);
  }

  lemma StepKeepsPlaces(s: System, a: Action)
    requires PlacesRight(s) && Enabled(s, a)
    ensures PlacesRight(Next(s, a))
  {
    hide RunThread;
    if a.Run? {
      RunKeepsPlaces(s, a.i);
    }
  }

  lemma StepKeepsWaitMutex(s: System, a: Action)
    requires WaitMutexRight(s) && Enabled(s, a)
    ensures WaitMutexRight(Next(s, a))
  {
  }

  lemma RunKeepsKillMutex(s: System, i: nat)
    requires PlacesRight(s) && KillMutexRight(s) && Enabled(s, Run(i))
    ensures KillMutexRight(RunThread(s, i))
  {
    assert WellPlaced(s.threads[i]) && (HoldsKillMutex(s.threads[i]) <==> s.killMutex == Caller(i));
  }

  lemma StepKeepsKillMutex(s: System, a: Action)
    requires PlacesRight(s) && KillMutexRight(s) && Enabled(s, a)
    ensures KillMutexRight(Next(s, a))
  {
    hide RunThread;
    if a.Run? {
      RunKeepsKillMutex(s, a.i);
    }
  }

  lemma StepKeepsStatus(s: System, a: Action)
    requires Inv(s) && Enabled(s, a)
    ensures StatusRight(Next(s, a))
  {
  }

  lemma RunKeepsSignals(s: System, i: nat)
    requires Inv(s) && Enabled(s, Run(i))
    ensures SignalsRight(RunThread(s, i))
  {
    if s.threads[i].role.Killer? {
      assert HoldsKillMutex(s.threads[i]) ==> s.killMutex == Caller(i);
    }
  }

  lemma StepKeepsSignals(s: System, a: Action)
    requires Inv(s) && Enabled(s, a)
    ensures SignalsRight(Next(s, a))
  {
    if a.Run? {
      RunKeepsSignals(s, a.i);
    }
  }

  lemma StepKeepsInv(s: System, a: Action)
    requires Inv(s) && Enabled(s, a)
    ensures Inv(Next(s, a))
  {
    hide PlacesRight, WaitMutexRight, KillMutexRight, StatusRight, SignalsRight, Next, Enabled;
    StepKeepsPlaces(s, a);
    StepKeepsWaitMutex(s, a);
    StepKeepsKillMutex(s, a);
    StepKeepsStatus(s, a);
    StepKeepsSignals(s, a);
  }

  // ---------- Runs ----------

  predicate Legal(s: System, actions: seq<Action>)
    decreases |actions|
  {
    actions != [] ==> Enabled(s, actions[0]) && Legal(Next(s, actions[0]), actions[1..])
  }

  function After(s: System, actions: seq<Action>): System
    requires Legal(s, actions)
    decreases |actions|
  {
    if actions == [] then s else After(Next(s, actions[0]), actions[1..])
  }

  lemma {:induction false} InvOverRuns(s: System, actions: seq<Action>)
    requires Inv(s) && Legal(s, actions)
    ensures Inv(After(s, actions))
    decreases |actions|
  {
    if actions != [] {
      StepKeepsInv(s, actions[0]);
      InvOverRuns(Next(s, actions[0]), actions[1..]);
    }
  }

  /** Escalation is safe, for any number of threads and any schedule: the signals ever sent are a
      prefix of SIGINT, SIGINT, SIGKILL; the status gives up on the program only after all three;
      every `kill` that has returned, and every `wait` that has returned true, left a status other
      than RUNNING; and nobody sleeps, unwoken, unless the status is RUNNING. */
  lemma EscalationIsSafe(roles: seq<Role>, actions: seq<Action>)
    requires Legal(Started(roles), actions)
    ensures var s := After(Started(roles), actions);
      && s.shared.signals <= [SigInt, SigInt, SigKill]
      && (s.shared.status == CannotKill ==> s.shared.signals == [SigInt, SigInt, SigKill])
      && (forall i :: 0 <= i < |s.threads| ==>
            && (s.threads[i].pc.Done? && (s.threads[i].role.Killer? || s.threads[i].pc.result) ==> s.shared.status != Running)
            && (s.threads[i].pc.Asleep? ==> s.shared.status == Running))
  {
    StartedIsRight(roles);
    InvOverRuns(Started(roles), actions);
    var s := After(Started(roles), actions);
    assert forall i :: 0 <= i < |s.threads| ==> WellPlaced(s.threads[i]) && RightAbout(s.threads[i], s.shared.status == Running);
  }

  lemma {:induction false} NeverRunsAgain(s: System, actions: seq<Action>)
    requires Inv(s) && Legal(s, actions) && s.shared.status != Running
    ensures After(s, actions).shared.status != Running && After(s, actions).shared.signals == s.shared.signals
    decreases |actions|
  {
    if actions != [] {
      StepKeepsInv(s, actions[0]);
      NeverRunsAgain(Next(s, actions[0]), actions[1..]);
    }
  }

  lemma {:induction false} OneMore(s: System, actions: seq<Action>, a: Action)
    requires Legal(s, actions) && Enabled(After(s, actions), a)
    ensures Legal(s, actions + [a]) && After(s, actions + [a]) == Next(After(s, actions), a)
    decreases |actions|
  {
    var all := actions + [a];
    if actions == [] {
      assert all == [a] && Legal(Next(s, a), []);
      assert After(Next(s, a), []) == Next(s, a);
    } else {
      OneMore(Next(s, actions[0]), actions[1..], a);
      assert all[1..] == actions[1..] + [a];
    }
  }

  lemma {:induction false} RunSplits(s: System, first: seq<Action>, later: seq<Action>)
    requires Legal(s, first + later)
    ensures Legal(s, first) && Legal(After(s, first), later) && After(s, first + later) == After(After(s, first), later)
    decreases |first|
  {
    var all := first + later;
    if first == [] {
      assert all == later;
    } else {
      assert all[0] == first[0] && all[1..] == first[1..] + later;
      RunSplits(Next(s, first[0]), first[1..], later);
    }
  }

  // ---------- No deadlock, and an end ----------

  /** Can some thread, or the reaper, take a step of its own? */
  ghost predicate SomebodyCanRun(s: System) {
    (exists i: nat :: Enabled(s, Run(i))) || Enabled(s, RunReaper)
  }

  /** Where nobody can take a step, every thread is finished, or asleep, or queues for a `kill`
      whose holder is asleep; and if any is left, the program is still running and the reaper still
      waits for it. So the two mutexes never deadlock. */
  lemma OnlyTheProgramIsAwaited(s: System)
    requires Inv(s) && !SomebodyCanRun(s)
    ensures forall i :: 0 <= i < |s.threads| ==>
      var pc := s.threads[i].pc;
      pc.Done? || pc.Asleep? || (pc.AtKillLock? && s.killMutex.Caller? && s.killMutex.i < |s.threads| && s.threads[s.killMutex.i].pc.Asleep?)
    ensures (exists i :: 0 <= i < |s.threads| && !s.threads[i].pc.Done?) ==>
      s.shared.status == Running && s.reaper == InWaitpid
  {
    if s.waitMutex.Caller? {
      assert HoldsWaitMutex(s.threads[s.waitMutex.i].pc);
      assert Enabled(s, Run(s.waitMutex.i));
    }
    assert s.waitMutex == Nobody;
    forall i | 0 <= i < |s.threads|
      ensures var pc := s.threads[i].pc; pc.Done? || pc.Asleep? || pc.AtKillLock?
    {
      assert !Enabled(s, Run(i));
    }
    forall i | 0 <= i < |s.threads| && s.threads[i].pc.AtKillLock?
      ensures s.killMutex.Caller? && s.threads[s.killMutex.i].pc.Asleep?
    {
      assert !Enabled(s, Run(i));
      assert HoldsKillMutex(s.threads[s.killMutex.i]);
    }
    if i :| 0 <= i < |s.threads| && !s.threads[i].pc.Done? {
      var j := if s.threads[i].pc.Asleep? then i else s.killMutex.i;
      assert RightAbout(s.threads[j], s.shared.status == Running);
    }
  }

  /** Is this a step of the given thread, or of the reaper, rather than of somebody else? */
  predicate Own(a: Action, who: Holder) {
    match a
    case Run(i) => who == Caller(i)
    case TimeOut(i) => who == Caller(i)
    case ChildEnds(_, _) => who == TheReaper
    case RunReaper => who == TheReaper
  }

  /** Others leave a thread where it is, but that they may wake it if it sleeps; and the reaper. */
  lemma OthersLeaveMe(s: System, a: Action, who: Holder)
    requires Enabled(s, a) && !Own(a, who)
    ensures var s' := Next(s, a);
      && |s'.threads| == |s.threads|
      && (who == TheReaper ==> s'.reaper == s.reaper)
      && (who.Caller? && who.i < |s.threads| ==>
            s'.threads[who.i] == s.threads[who.i]
            || (s.threads[who.i].pc.Asleep? && s'.threads[who.i] == s.threads[who.i].(pc := Waking(s.threads[who.i].pc.stage, true))))
  {
  }

  /** Whoever sleeps or waits for a mutex can rely on somebody else to go on, if only the child
      does end some day. */
  lemma SomebodyElse(s: System, who: Holder)
    requires Inv(s)
    requires if who.Caller? then who.i < |s.threads| && !s.threads[who.i].pc.Done? && !Enabled(s, Run(who.i))
             else who == TheReaper && s.reaper.AtLock? && !Enabled(s, RunReaper)
    ensures exists a :: Enabled(s, a) && !Own(a, who)
  {
    if i: nat :| Enabled(s, Run(i)) {
      assert !Own(Run(i), who);
    } else if Enabled(s, RunReaper) {
      assert !Own(RunReaper, who);
    } else {
      OnlyTheProgramIsAwaited(s);
      assert Enabled(s, ChildEnds(Exited, 0));
      assert who.Caller? ==> !Own(ChildEnds(Exited, 0), who);
    }
  }

  /** How many steps a thread has left at most. */
  function Rank(pc: Pc): nat {
    match pc
    case Check => 26
    case AtKillLock => 25
    case AtSendLock(stage) => 10 + Later(stage)
    case Sending(stage) => 9 + Later(stage)
    case AtWaitLock(stage) => 8 + Later(stage)
    case Testing(stage) => 7 + Later(stage)
    case Asleep(stage) => 6 + Later(stage)
    case Waking(stage, _) => 5 + Later(stage)
    case Returning(stage, _) => 4 + Later(stage)
    case AtGiveUpLock => 3
    case GivingUp => 2
    case Unlocking => 1
    case Done(_) => 0
  }

  function Later(stage: nat): nat {
    if stage < 2 then 7 * (2 - stage) else 0
  }

  function Ranks(threads: seq<Thread>): nat {
    if threads == [] then 0 else Rank(threads[0].pc) + Ranks(threads[1..])
  }

  function StepsLeft(s: System): nat {
    Ranks(s.threads) + (match s.reaper case InWaitpid => 3 case AtLock(_, _) => 2 case Publishing(_, _) => 1 case Finished => 0)
  }

  lemma {:induction false} RanksAt(threads: seq<Thread>, i: nat, t: Thread)
    requires i < |threads|
    ensures Ranks(threads[i := t]) == Ranks(threads) - Rank(threads[i].pc) + Rank(t.pc)
  {
    if i == 0 {
      assert threads[0 := t][1..] == threads[1..];
    } else {
      RanksAt(threads[1..], i - 1, t);
      assert threads[i := t][1..] == threads[1..][i - 1 := t];
    }
  }

  lemma {:induction false} BroadcastRanks(threads: seq<Thread>)
    ensures Ranks(Broadcast(threads)) <= Ranks(threads)
  {
    if threads != [] {
      BroadcastRanks(threads[1..]);
      var woken := Broadcast(threads);
      assert woken[1..] == Broadcast(threads[1..]);
    }
  }

  lemma OwnStepFalls(s: System, i: nat)
    requires PlacesRight(s) && Enabled(s, Run(i))
    ensures var s' := RunThread(s, i);
      && |s'.threads| == |s.threads| && Rank(s'.threads[i].pc) < Rank(s.threads[i].pc) && s'.reaper == s.reaper
      && s'.threads == if s.threads[i].pc.GivingUp? then Broadcast(s.threads[i := s'.threads[i]]) else s.threads[i := s'.threads[i]]
  {
  }

  lemma StepTakesOne(s: System, a: Action)
    requires PlacesRight(s) && Enabled(s, a)
    ensures StepsLeft(Next(s, a)) < StepsLeft(s)
  {
    match a
    case Run(i) =>
      hide RunThread, Broadcast, Rank;
      OwnStepFalls(s, i);
      var t := RunThread(s, i).threads[i];
      RanksAt(s.threads, i, t);
      BroadcastRanks(s.threads[i := t]);
    case TimeOut(i) => RanksAt(s.threads, i, Next(s, a).threads[i]);
    case ChildEnds(_, _) =>
    case RunReaper => BroadcastRanks(s.threads);
  }

  lemma {:induction false} RanksBounded(threads: seq<Thread>)
    ensures Ranks(threads) <= 26 * |threads|
  {
    if threads != [] {
      RanksBounded(threads[1..]);
    }
  }

  lemma {:induction false} RunTakesItsLength(s: System, actions: seq<Action>)
    requires PlacesRight(s) && Legal(s, actions)
    ensures |actions| + StepsLeft(After(s, actions)) <= StepsLeft(s)
    decreases |actions|
  {
    if actions != [] {
      StepKeepsPlaces(s, actions[0]);
      StepTakesOne(s, actions[0]);
      RunTakesItsLength(Next(s, actions[0]), actions[1..]);
    }
  }

  /** Every schedule ends, after at most 26 steps for each thread and 3 for the reaper. And where
      it cannot be continued although the child has ended, every call has returned. */
  lemma EveryScheduleEnds(roles: seq<Role>, actions: seq<Action>)
    requires Legal(Started(roles), actions)
    ensures |actions| <= 26 * |roles| + 3
    ensures var s := After(Started(roles), actions);
      s.reaper != InWaitpid && !SomebodyCanRun(s) ==> forall i :: 0 <= i < |s.threads| ==> s.threads[i].pc.Done?
  {
    var s0 := Started(roles);
    StartedIsRight(roles);
    RunTakesItsLength(s0, actions);
    RanksBounded(s0.threads);
    InvOverRuns(s0, actions);
    var s := After(s0, actions);
    if s.reaper != InWaitpid && !SomebodyCanRun(s) {
      OnlyTheProgramIsAwaited(s);
    }
  }

  predicate AllTimed(role: Role) {
    match role
    case Waiter(timed) => timed
    case Killer(first, second, third) => first && second && third
  }

  lemma {:induction false} RolesStay(s: System, actions: seq<Action>)
    requires Legal(s, actions)
    ensures |After(s, actions).threads| == |s.threads|
    ensures forall i :: 0 <= i < |s.threads| ==> After(s, actions).threads[i].role == s.threads[i].role
    decreases |actions|
  {
    if actions != [] {
      RolesStay(Next(s, actions[0]), actions[1..]);
    }
  }

  /** Calls with timeouts return even if the program never ends: where a schedule can only be
      continued by the end of the child, and every wait has a timeout, every call has returned; and
      if a `kill` was among them, the program is no longer taken to be running. */
  lemma TimedCallsReturn(roles: seq<Role>, actions: seq<Action>)
    requires Legal(Started(roles), actions) && forall i :: 0 <= i < |roles| ==> AllTimed(roles[i])
    requires forall a: Action :: Enabled(After(Started(roles), actions), a) ==> a.ChildEnds?
    ensures var s := After(Started(roles), actions);
      && (forall i :: 0 <= i < |s.threads| ==> s.threads[i].pc.Done?)
      && ((exists i :: 0 <= i < |roles| && roles[i].Killer?) ==> s.shared.status != Running)
  {
    var s0 := Started(roles);
    StartedIsRight(roles);
    InvOverRuns(s0, actions);
    RolesStay(s0, actions);
    var s := After(s0, actions);
    assert !Enabled(s, RunReaper) && forall i: nat :: !Enabled(s, Run(i));
    OnlyTheProgramIsAwaited(s);
    forall i | 0 <= i < |s.threads|
      ensures !s.threads[i].pc.Asleep?
    {
      assert s.threads[i].role == roles[i] && AllTimed(roles[i]);
      assert !Enabled(s, TimeOut(i));
    }
    if i :| 0 <= i < |roles| && roles[i].Killer? {
      assert s.threads[i].role == roles[i] && WellPlaced(s.threads[i]);
      assert RightAbout(s.threads[i], s.shared.status == Running);
    }
  }

  // ---------- Which waits time out, and how often ----------

  /** A sleeping waiter may time out if its wait has a timeout; a sleeping killer, if that wait has one
      which follows the signal sent last: the first SIGINT, the second, or SIGKILL. */
  lemma TimesOutIff(s: System, i: nat)
    requires Inv(s) && i < |s.threads| && s.threads[i].pc.Asleep?
    ensures Enabled(s, TimeOut(i)) <==>
      match s.threads[i].role
      case Waiter(timed) => timed
      case Killer(first, second, third) =>
        (s.shared.signals == [SigInt] && first) || (s.shared.signals == [SigInt, SigInt] && second)
        || (s.shared.signals == [SigInt, SigInt, SigKill] && third)
  {
    var t := s.threads[i];
    assert WellPlaced(t) && RightAbout(t, s.shared.status == Running);
    assert HoldsKillMutex(t) <==> s.killMutex == Caller(i);
    if t.role.Killer? {
      assert |s.shared.signals| == t.pc.stage + 1;
      assert s.shared.signals == ESCALATION[..|s.shared.signals|];
    }
  }

  /** Where the status is not RUNNING, a `kill` that starts then is over after one step, without a
      mutex and without a signal. */
  lemma EndedIsNotKilled(s: System, i: nat)
    requires i < |s.threads| && s.threads[i].pc.Check? && s.shared.status != Running
    ensures Enabled(s, Run(i)) && Next(s, Run(i)) == s.(threads := s.threads[i := s.threads[i].(pc := Done(true))])
  {
  }

  /** And a `wait` is over after three: it takes its mutex, looks, and gives it back. */
  lemma EndedIsNotAwaited(s: System, i: nat)
    requires i < |s.threads| && s.threads[i].role.Waiter? && s.threads[i].pc == AtWaitLock(0)
    requires s.shared.status != Running && s.waitMutex == Nobody
    ensures Enabled(s, Run(i)) && Enabled(Next(s, Run(i)), Run(i)) && Enabled(Next(Next(s, Run(i)), Run(i)), Run(i))
    ensures Next(Next(Next(s, Run(i)), Run(i)), Run(i)) == s.(threads := s.threads[i := s.threads[i].(pc := Done(true))])
  {
    var s3 := Next(Next(Next(s, Run(i)), Run(i)), Run(i));
    assert s3.threads == s.threads[i := s.threads[i].(pc := Done(true))];
  }

  function TimeOuts(actions: seq<Action>, i: nat): nat {
    if actions == [] then 0 else (if actions[0] == TimeOut(i) then 1 else 0) + TimeOuts(actions[1..], i)
  }

  lemma {:induction false} NoTimeOut(actions: seq<Action>, i: nat)
    ensures TimeOuts(actions, i) == 0 <==> TimeOut(i) !in actions
  {
    if actions != [] {
      NoTimeOut(actions[1..], i);
      assert actions == [actions[0]] + actions[1..];
    }
  }

  /** How often a thread's waits have timed out, given where it stands. */
  predicate TimedOutSoOften(t: Thread, n: nat) {
    match t.pc
    case Check => n == 0
    case AtKillLock => n == 0
    case AtSendLock(stage) => n == stage
    case Sending(stage) => n == stage
    case AtWaitLock(stage) => n == stage
    case Testing(stage) => n == stage
    case Asleep(stage) => n == stage
    case Waking(stage, result) => n == if result then stage else stage + 1
    case Returning(stage, result) => n == if result then stage else stage + 1
    case AtGiveUpLock => n == 3
    case GivingUp => n == 3
    case Unlocking => n <= 3
    case Done(result) => if t.role.Waiter? then n == if result then 0 else 1 else n <= 3
  }

  lemma OwnStepCounts(s: System, i: nat, n: nat)
    requires PlacesRight(s) && Enabled(s, Run(i)) && TimedOutSoOften(s.threads[i], n)
    ensures |RunThread(s, i).threads| == |s.threads| && TimedOutSoOften(RunThread(s, i).threads[i], n)
  {
    assert WellPlaced(s.threads[i]);
  }

  lemma StepCounts(s: System, a: Action, i: nat, n: nat)
    requires PlacesRight(s) && Enabled(s, a) && i < |s.threads| && TimedOutSoOften(s.threads[i], n)
    ensures i < |Next(s, a).threads|
    ensures TimedOutSoOften(Next(s, a).threads[i], if a == TimeOut(i) then n + 1 else n)
  {
    if a == Run(i) {
      OwnStepCounts(s, i, n);
    } else if a != TimeOut(i) {
      hide TimedOutSoOften;
      OthersLeaveMe(s, a, Caller(i));
      WakingCounts(s.threads[i], n);
    }
  }

  lemma WakingCounts(t: Thread, n: nat)
    requires TimedOutSoOften(t, n)
    ensures t.pc.Asleep? ==> TimedOutSoOften(t.(pc := Waking(t.pc.stage, true)), n)
  {
  }

  lemma {:induction false} CountsOverRuns(s: System, actions: seq<Action>, i: nat, n: nat)
    requires PlacesRight(s) && Legal(s, actions) && i < |s.threads| && TimedOutSoOften(s.threads[i], n)
    ensures i < |After(s, actions).threads|
    ensures TimedOutSoOften(After(s, actions).threads[i], n + TimeOuts(actions, i))
    decreases |actions|
  {
    hide TimedOutSoOften, Next, Enabled, PlacesRight;
    if actions != [] {
      StepKeepsPlaces(s, actions[0]);
      StepCounts(s, actions[0], i, n);
      CountsOverRuns(Next(s, actions[0]), actions[1..], i, if actions[0] == TimeOut(i) then n + 1 else n);
    }
  }

  /** Over every schedule: a `wait` returns false only if it has timed out, once, and true only if it has
      not; and a killer goes on to its next attempt, and in the end gives up, only after every wait
      before has timed out. */
  lemma OnlyTimeOutsEscalate(roles: seq<Role>, actions: seq<Action>, i: nat)
    requires Legal(Started(roles), actions) && i < |roles|
    ensures var t := After(Started(roles), actions).threads; i < |t| && TimedOutSoOften(t[i], TimeOuts(actions, i))
    ensures var t := After(Started(roles), actions).threads; t[i].pc == Done(false) ==> TimeOut(i) in actions
    ensures var t := After(Started(roles), actions).threads;
      roles[i].Waiter? && t[i].pc == Done(true) ==> TimeOut(i) !in actions
  {
    StartedIsRight(roles);
    CountsOverRuns(Started(roles), actions, i, 0);
    RolesStay(Started(roles), actions);
    InvOverRuns(Started(roles), actions);
    NoTimeOut(actions, i);
    assert WellPlaced(After(Started(roles), actions).threads[i]);
  }
}
