/** The program executor: the code of `start`, `wait`, `kill` and the reaper, as one thread runs it
    while the others do what they like within the protocol. */
module Executor {
  import opened KillProtocol

  class ProgramExecutor {
    var status: Status
    var waitStatus: int
    var pipeOpen: bool
    var signals: seq<Signal>  // what the child has been sent
    var killMutex: Holder
    var waitMutex: Holder
    var threads: seq<Thread>  // where each caller stands
    var reaper: ReaperPc

    ghost const roles: seq<Role>
    ghost var history: seq<Action>  // every step since the start

    function View(): System
      reads this
    {
      System(Shared(status, waitStatus, signals, pipeOpen), threads, reaper, killMutex, waitMutex)
    }

    /** All that has happened since the start was a schedule of the protocol. */
    ghost predicate Valid()
      reads this
    {
      if status == NotStarted then
        history == [] && View() == Started(roles).(shared := Shared(NotStarted, 0, [], false))
      else
        Legal(Started(roles), history) && View() == After(Started(roles), history)
    }

    constructor (roles: seq<Role>)
      ensures Valid() && status == NotStarted && this.roles == roles
    {
      this.roles := roles;
      var s := Started(roles);
      status, waitStatus, pipeOpen, signals := NotStarted, 0, false, [];
      killMutex, waitMutex, threads, reaper := Nobody, Nobody, s.threads, InWaitpid;
      history := [];
    }

    /** Starts the program, once; refuses, and changes nothing, if that has been done. */
    method Start() returns (ok: bool)
      requires Valid()
      modifies this`status, this`pipeOpen
      ensures Valid() && status != NotStarted && ok == (old(status) == NotStarted)
      ensures if ok then View() == Started(roles) else View() == old(View())
    {
      if status != NotStarted {
        return false;
      }
      status, pipeOpen := Running, true;
      ok := true;
    }

    lemma ValidIsInv()
      requires Valid() && status != NotStarted
      ensures Inv(View())
    {
      hide Inv;
      StartedIsRight(roles);
      InvOverRuns(Started(roles), history);
    }

    /** Takes a step into the history. */
    ghost method Record(was: System, a: Action)
      requires Legal(Started(roles), history) && was == After(Started(roles), history) && Inv(was)
      requires Enabled(was, a) && View() == Next(was, a)
      modifies this`history
      ensures Valid() && Inv(View()) && history == old(history) + [a]
      ensures StepsLeft(View()) < StepsLeft(was)
    {
      hide PlacesRight, WaitMutexRight, KillMutexRight, SignalsRight, RightAbout, Legal, After, Next, Enabled, StepsLeft;
      OneMore(Started(roles), history, a);
      StepKeepsInv(was, a);
      StepTakesOne(was, a);
      history := history + [a];
    }

    /** The executor goes on as the same run of the program. */
    twostate predicate GoesOn()
      reads this
    {
      && Valid() && status != NotStarted && Inv(View()) && old(history) <= history && |threads| == |old(threads)|
      && StepsLeft(View()) <= old(StepsLeft(View()))
    }

    /** One step of somebody else. */
    method Interfere(who: Holder, a: Action)
      requires Valid() && Inv(View()) && status != NotStarted && Enabled(View(), a) && !Own(a, who)
      modifies this
      ensures GoesOn() && StepsLeft(View()) < old(StepsLeft(View())) && Undisturbed(who)
    {
      hide Inv, Legal, After, Next, Enabled, StepsLeft;
      ghost var was := View();
      OthersLeaveMe(was, a, who);
      var next := Next(View(), a);
      status, waitStatus, signals, pipeOpen := next.shared.status, next.shared.waitStatus, next.shared.signals, next.shared.pipeOpen;
      threads, reaper, killMutex, waitMutex := next.threads, next.reaper, next.killMutex, next.waitMutex;
      Record(was, a);
    }

    /** A thread, or the reaper, stands where it stood, or has been woken from its sleep. */
    twostate predicate Undisturbed(who: Holder)
      reads this
    {
      && (who == TheReaper ==> reaper == old(reaper))
      && (who.Caller? && who.i < |threads| == |old(threads)| ==>
            || threads[who.i] == old(threads[who.i])
            || (old(threads[who.i]).pc.Asleep? && threads[who.i] == old(threads[who.i]).(pc := Waking(old(threads[who.i]).pc.stage, true))))
    }

    /** Any number of steps of others. */
    method Others(who: Holder)
      requires Valid() && status != NotStarted
      modifies this
      ensures GoesOn() && Undisturbed(who)
    {
      ValidIsInv();
      hide Inv, Legal, After, Next, Enabled, StepsLeft;
      while *
        invariant GoesOn() && Undisturbed(who)
        decreases StepsLeft(View())
      {
        var a: Action := *;
        if !Enabled(View(), a) || Own(a, who) {
          break;
        }
        Interfere(who, a);
      }
    }

    /** Does the given thread stand at this point of its call? */
    predicate Stands(me: nat, role: Role, pc: Pc)
      reads this
    {
      me < |threads| && threads[me] == Thread(role, pc)
    }

    /** Acquires _waitMutex, once whoever holds it has released it. */
    method LockWait(me: nat)
      requires Valid() && status != NotStarted && me < |threads|
      requires var pc := threads[me].pc; pc.AtSendLock? || pc.AtWaitLock? || pc.Waking? || pc.AtGiveUpLock?
      modifies this
      ensures GoesOn() && threads[me] == old(RunThread(View(), me).threads[me])
    {
      hide Legal, After, StepsLeft;
      Others(Caller(me));
      while waitMutex != Nobody
        invariant GoesOn() && threads[me] == old(threads[me])
        decreases StepsLeft(View())
      {
        SomebodyElse(View(), Caller(me));
        var a :| Enabled(View(), a) && !Own(a, Caller(me));
        Interfere(Caller(me), a);
      }
      ghost var was := View();
      threads, waitMutex := RunThread(View(), me).threads, Caller(me);
      Record(was, Run(me));
    }

    /** Acquires _killMutex. */
    method LockKill(me: nat, role: Role)
      requires Valid() && status != NotStarted && Stands(me, role, AtKillLock)
      modifies this
      ensures GoesOn() && Stands(me, role, AtSendLock(0))
    {
      hide Legal, After, StepsLeft;
      Others(Caller(me));
      while killMutex != Nobody
        invariant GoesOn() && Stands(me, role, AtKillLock)
        decreases StepsLeft(View())
      {
        SomebodyElse(View(), Caller(me));
        var a :| Enabled(View(), a) && !Own(a, Caller(me));
        Interfere(Caller(me), a);
      }
      ghost var was := View();
      threads, killMutex := threads[me := Thread(role, AtSendLock(0))], Caller(me);
      Record(was, Run(me));
    }

    /** _killIfRunning. */
    method KillIfRunning(me: nat, role: Role, stage: nat, signal: Signal)
      requires Valid() && status != NotStarted && Stands(me, role, AtSendLock(stage))
      requires signal == if stage < 2 then SigInt else SigKill
      modifies this
      ensures GoesOn() && Stands(me, role, AtWaitLock(stage))
    {
      hide Legal, After, StepsLeft;
      LockWait(me);
      Others(Caller(me));
      ghost var was := View();
      if status == Running {
        signals := signals + [signal];
      }
      waitMutex, threads := Nobody, threads[me := Thread(role, AtWaitLock(stage))];
      Record(was, Run(me));
    }

    /** Has this happened after the history so far? */
    static predicate Since(before: seq<Action>, after: seq<Action>, a: Action) {
      before <= after && a in after[|before|..]
    }

    static lemma StillSince(h0: seq<Action>, h1: seq<Action>, h2: seq<Action>, h3: seq<Action>, a: Action)
      requires h0 <= h1 <= h2 <= h3 && Since(h1, h2, a)
      ensures Since(h0, h3, a)
    {
      var k :| |h1| <= k < |h2| && h2[k] == a;
      assert h3[|h0|..][k - |h0|] == a;
    }

    /** Sleeps on the condition until somebody broadcasts, or until the timeout, if there is one. */
    method Sleep(me: nat, role: Role, stage: nat) returns (signalled: bool)
      requires Valid() && status != NotStarted && Stands(me, role, Asleep(stage))
      modifies this
      ensures GoesOn() && Stands(me, role, Waking(stage, signalled))
      ensures !Timed(role, stage) ==> signalled
      ensures !signalled ==> Since(old(history), history, TimeOut(me))
    {
      hide Legal, After, StepsLeft;
      Others(Caller(me));
      while threads[me].pc.Asleep?
        invariant GoesOn() && (Stands(me, role, Asleep(stage)) || Stands(me, role, Waking(stage, true)))
        decreases StepsLeft(View())
      {
        var timeIsUp: bool := *;
        if Timed(role, stage) && timeIsUp {
          ghost var was := View();
          threads := threads[me := Thread(role, Waking(stage, false))];
          ghost var before := history;
          Record(was, TimeOut(me));
          assert history[|before|..] == [TimeOut(me)];
          StillSince(old(history), before, history, history, TimeOut(me));
          return false;
        }
        SomebodyElse(View(), Caller(me));
        var a :| Enabled(View(), a) && !Own(a, Caller(me));
        Interfere(Caller(me), a);
      }
      signalled := true;
    }

    /** The body of `wait`, under its mutex: returns at once if the status is not RUNNING, and otherwise
        sleeps and takes the mutex back. */
    method SleepWhileRunning(me: nat, role: Role, stage: nat) returns (result: bool)
      requires Valid() && status != NotStarted && Stands(me, role, Testing(stage))
      modifies this
      ensures GoesOn() && Stands(me, role, Returning(stage, result))
      ensures !Timed(role, stage) || old(status) != Running ==> result
      ensures !result ==> Since(old(history), history, TimeOut(me))
    {
      hide Inv, Legal, After, StepsLeft;
      ValidIsInv();
      ghost var was := View();
      if status == Running {
        waitMutex, threads := Nobody, threads[me := Thread(role, Asleep(stage))];
        Record(was, Run(me));
        ghost var h1 := history;
        result := Sleep(me, role, stage);
        ghost var h2 := history;
        LockWait(me);
        if !result {
          StillSince(old(history), h1, h2, history, TimeOut(me));
        }
      } else {
        result, threads := true, threads[me := Thread(role, Returning(stage, true))];
        Record(was, Run(me));
      }
    }

    /** wait, from the point where it has its mutex, in a program that has been started. */
    method AwaitLocked(me: nat, role: Role, stage: nat) returns (result: bool)
      requires Valid() && status != NotStarted && Stands(me, role, Testing(stage))
      modifies this
      ensures GoesOn() && Stands(me, role, Resumed(role, stage, result))
      ensures !Timed(role, stage) || old(status) != Running ==> result
      ensures !result ==> Since(old(history), history, TimeOut(me))
    {
      hide Inv, Legal, After, StepsLeft;
      Others(Caller(me));
      if old(status) != Running {
        GoneForGood();
      }
      ghost var h1 := history;
      result := SleepWhileRunning(me, role, stage);
      ghost var h2 := history;
      Others(Caller(me));
      ghost var was := View();
      waitMutex, threads := Nobody, threads[me := Thread(role, Resumed(role, stage, result))];
      Record(was, Run(me));
      if !result {
        StillSince(old(history), h1, h2, history, TimeOut(me));
      }
    }

    /** wait, from the point where it asks for its mutex. */
    method AwaitEnd(me: nat, role: Role, stage: nat) returns (result: bool)
      requires Valid() && status != NotStarted && Stands(me, role, AtWaitLock(stage))
      modifies this
      ensures GoesOn() && Stands(me, role, Resumed(role, stage, result))
      ensures !Timed(role, stage) || old(status) != Running ==> result
      ensures !result ==> Since(old(history), history, TimeOut(me))
    {
      hide Inv, Legal, After, StepsLeft;
      LockWait(me);
      if old(status) != Running {
        GoneForGood();
      }
      ghost var h1 := history;
      result := AwaitLocked(me, role, stage);
      if !result {
        StillSince(old(history), h1, history, history, TimeOut(me));
      }
    }

    /** Acquires _waitMutex, whether or not the program has been started; before that it is free. */
    method EnterWait(me: nat, role: Role)
      requires Valid() && Stands(me, role, AtWaitLock(0))
      modifies this
      ensures old(status) == NotStarted ==> View() == old(View()).(waitMutex := Caller(me)) && history == old(history)
      ensures old(status) != NotStarted ==> GoesOn() && Stands(me, role, Testing(0)) && (old(status) != Running ==> status != Running)
    {
      if status == NotStarted {
        waitMutex := Caller(me);
      } else {
        LockWait(me);
        if old(status) != Running {
          GoneForGood();
        }
      }
    }

    /** Once the status is not RUNNING it stays so, and no signal is sent any more. */
    twostate lemma GoneForGood()
      requires old(Valid()) && old(status) != NotStarted && old(status) != Running && GoesOn()
      ensures status != Running && signals == old(signals)
    {
      hide Inv;
      var s0, before := Started(roles), old(history);
      var later := history[|before|..];
      assert history == before + later;
      RunSplits(s0, before, later);
      StartedIsRight(roles);
      InvOverRuns(s0, before);
      NeverRunsAgain(After(s0, before), later);
    }

    /** wait. It throws before the start. Afterwards, whatever the other threads do, it returns if only
        the program ends some day, or at its timeout; and if it returns true, the status is not RUNNING. */
    method Wait(me: nat, role: Role) returns (threw: bool, result: bool)
      requires Valid() && role.Waiter? && Stands(me, role, AtWaitLock(0))
      modifies this
      ensures Valid() && threw == (old(status) == NotStarted)
      ensures threw ==> View() == old(View())
      ensures !threw ==> GoesOn() && Stands(me, role, Done(result))
      ensures !threw && (result || !role.timed) ==> result && status != Running
      ensures old(status) != NotStarted && old(status) != Running ==> !threw && result
      ensures !threw && !result ==> Since(old(history), history, TimeOut(me))
    {
      EnterWait(me, role);
      if status == NotStarted {
        waitMutex := Nobody;
        return true, false;
      }
      threw := false;
      ghost var h1 := history;
      result := AwaitLocked(me, role, 0);
      if !result {
        StillSince(old(history), h1, history, history, TimeOut(me));
      }
      assert RightAbout(threads[me], status == Running);
    }

    /** The attempts of `kill`, under its mutex: SIGINT, SIGINT again, SIGKILL, each with a wait, and
        then giving up. */
    method Escalate(me: nat, role: Role)
      requires Valid() && status != NotStarted && role.Killer? && Stands(me, role, AtSendLock(0))
      modifies this
      ensures GoesOn() && Stands(me, role, Unlocking)
    {
      hide Inv, Legal, After, StepsLeft;
      KillIfRunning(me, role, 0, SigInt);
      var gone := AwaitEnd(me, role, 0);
      if !gone {
        KillIfRunning(me, role, 1, SigInt);
        gone := AwaitEnd(me, role, 1);
        if !gone {
          KillIfRunning(me, role, 2, SigKill);
          gone := AwaitEnd(me, role, 2);
          if !gone {
            GiveUp(me, role);
          }
        }
      }
    }

    /** The last resort of `kill`: it does not look at the status again. */
    method GiveUp(me: nat, role: Role)
      requires Valid() && status != NotStarted && role.Killer? && Stands(me, role, AtGiveUpLock)
      modifies this
      ensures GoesOn() && Stands(me, role, Unlocking) && status == CannotKill && !pipeOpen
      ensures forall i :: 0 <= i < |threads| ==> !threads[i].pc.Asleep?
    {
      hide Inv, Legal, After, StepsLeft, Broadcast;
      LockWait(me);
      Others(Caller(me));
      ghost var was := View();
      status, pipeOpen := CannotKill, false;
      threads, waitMutex := Broadcast(threads[me := Thread(role, Unlocking)]), Nobody;
      Record(was, Run(me));
    }

    /** What the invariant says once a `kill` is over. */
    lemma IsOver(me: nat, role: Role)
      requires Inv(View()) && role.Killer? && Stands(me, role, Done(true))
      ensures status != Running && signals <= ESCALATION && (status == CannotKill ==> signals == ESCALATION)
    {
      assert RightAbout(threads[me], status == Running);
    }

    /** The part of `kill` under _killMutex. */
    method KillOneAtATime(me: nat, role: Role)
      requires Valid() && status != NotStarted && role.Killer? && Stands(me, role, AtKillLock)
      modifies this
      ensures GoesOn() && Stands(me, role, Done(true))
    {
      hide Inv, Legal, After, StepsLeft;
      LockKill(me, role);
      Escalate(me, role);
      Others(Caller(me));
      ghost var was := View();
      killMutex, threads := Nobody, threads[me := Thread(role, Done(true))];
      Record(was, Run(me));
    }

    /** `kill`, in a program that has been started: looks at the status without a lock. */
    method KillWhileRunning(me: nat, role: Role)
      requires Valid() && status != NotStarted && role.Killer? && Stands(me, role, Check)
      modifies this
      ensures GoesOn() && Stands(me, role, Done(true))
    {
      hide Inv, Legal, After, StepsLeft;
      Others(Caller(me));
      ghost var was := View();
      if status == Running {
        threads := threads[me := Thread(role, AtKillLock)];
        Record(was, Run(me));
        KillOneAtATime(me, role);
      } else {
        threads := threads[me := Thread(role, Done(true))];
        Record(was, Run(me));
      }
    }

    /** kill. Whatever the other threads do, and whoever else is at it, it returns if only the program
        ends some day where it waits without a timeout; then the status is not RUNNING, and what
        it has been sent is a prefix of SIGINT, SIGINT, SIGKILL, all of it if it has been given up. A
        program whose status was not RUNNING before is sent nothing. Before the start nothing happens. */
    method Kill(me: nat, role: Role)
      requires Valid() && role.Killer? && Stands(me, role, Check)
      modifies this
      ensures Valid() && (old(status) == NotStarted ==> View() == old(View()))
      ensures old(status) != NotStarted ==>
        && GoesOn() && Stands(me, role, Done(true)) && status != Running
        && signals <= [SigInt, SigInt, SigKill] && (status == CannotKill ==> signals == [SigInt, SigInt, SigKill])
        && (old(status) != Running ==> signals == old(signals))
    {
      if status == NotStarted {
        return;
      }
      KillWhileRunning(me, role);
      IsOver(me, role);
      if old(status) != Running {
        GoneForGood();
      }
    }

    /** The reaper acquires _waitMutex. */
    method LockToPublish(how: Status, childStatus: int)
      requires Valid() && status != NotStarted && reaper == AtLock(how, childStatus)
      modifies this
      ensures GoesOn() && reaper == Publishing(how, childStatus)
    {
      hide Legal, After, StepsLeft;
      Others(TheReaper);
      while waitMutex != Nobody
        invariant GoesOn() && reaper == AtLock(how, childStatus)
        decreases StepsLeft(View())
      {
        SomebodyElse(View(), TheReaper);
        var a :| Enabled(View(), a) && !Own(a, TheReaper);
        Interfere(TheReaper, a);
      }
      ghost var was := View();
      reaper, waitMutex := Publishing(how, childStatus), TheReaper;
      Record(was, RunReaper);
    }

    /** The reaper publishes what it knows, and wakes everybody. */
    method Publish(how: Status, childStatus: int)
      requires Valid() && status != NotStarted && reaper == Publishing(how, childStatus)
      modifies this
      ensures GoesOn() && reaper == Finished && status == how && waitStatus == childStatus
      ensures forall i :: 0 <= i < |threads| ==> !threads[i].pc.Asleep?
    {
      hide Inv, Legal, After, StepsLeft, Broadcast;
      Others(TheReaper);
      ghost var was := View();
      status, waitStatus := how, childStatus;
      threads, reaper, waitMutex := Broadcast(threads), Finished, Nobody;
      Record(was, RunReaper);
    }

    /** _waitInBackground: publishes how the child has ended, and wakes everybody. */
    method WaitInBackground(how: Status, childStatus: int)
      requires Valid() && status != NotStarted && reaper == InWaitpid
      requires how == Exited || how == Signalled
      modifies this
      ensures GoesOn() && reaper == Finished && status == how && waitStatus == childStatus
      ensures forall i :: 0 <= i < |threads| ==> !threads[i].pc.Asleep?
    {
      hide Inv, Legal, After, StepsLeft, Broadcast;
      Others(TheReaper);
      ghost var was := View();
      reaper := AtLock(how, childStatus);
      Record(was, ChildEnds(how, childStatus));
      LockToPublish(how, childStatus);
      Publish(how, childStatus);
    }
  }
}
