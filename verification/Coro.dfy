/**
 Symmetric coroutines: a trampoline in the main thread and a map of callers stand in for
 the stack of resumes. Thread bodies are arbitrary; what they do next depends on what
 they have received so far.
 */
module Coroutines {
  import opened Options

  /** Threads are numbered as they are created; a number without a thread stands for nil. */
  type Thread = nat
  const MAIN: Thread := 0

  datatype Value = Number(n: int) | Ref(thread: Thread) | Text(text: string)
  type Values = seq<Value>

  /** What a body gets back from the call it made last; an error may be raised in it. */
  datatype Input = Started(values: Values) | Result(ok: bool, values: Values) | Raised(values: Values)

  /** How a body ends: by itself, or by naming the thread to go on with. */
  datatype Outcome = Done(ok: bool, values: Values) | FinishTo(to: Thread, rest: Outcome)

  datatype Action =
    | Create
    | TransferWith(to: Thread, ok: bool, values: Values)
    | Transfer(to: Thread, values: Values)
    | ResumeWith(to: Thread, ok: bool, values: Values)
    | Resume(to: Thread, values: Values)
    | Yield(values: Values)
    | Finish(outcome: Outcome)

  /** Bodies and finalizers of all threads; a finalizer does not raise. */
  datatype Program = Program(body: (Thread, seq<Input>) -> Action, onfinish: (Thread, Outcome) -> Outcome)

  // ---------- Native coroutines ----------

  /** The call in which a thread is suspended. */
  datatype Point = InTransfer(unprotected: bool) | InResume(of: Thread)

  datatype Status = Unstarted | Suspended(at: Point) | Running | Dead

  /** Threads of the Lua machine, the one that runs, and what each body has received. */
  datatype Machine = Machine(status: seq<Status>, running: Thread, inbox: seq<seq<Input>>) {
    predicate Valid() {
      && 0 < |status| == |inbox|
      && running < |status| && status[running].Running?
      && (forall t :: 0 <= t < |status| && t != running ==> !status[t].Running?)
      && !status[MAIN].Unstarted? && !status[MAIN].Dead?
    }

    predicate Has(t: Thread) {
      t < |status|
    }

    /** May native resume be called for `t`? */
    predicate Resumable(t: Thread) {
      t < |status| && (status[t].Unstarted? || status[t].Suspended?)
    }

    function With(t: Thread, s: Status): Machine
      requires t < |status|
    {
      this.(status := status[t := s])
    }

    function Receive(t: Thread, input: Input): Machine
      requires t < |inbox|
    {
      this.(inbox := inbox[t := inbox[t] + [input]])
    }

    /** Let `t` run. */
    function Run(t: Thread): Machine
      requires t < |status|
    {
      With(t, Running).(running := t)
    }
  }

  // ---------- The module's own state ----------

  datatype State = State(callers: map<Thread, Thread>, current: Thread, machine: Machine)

  /** The native thread that runs is the one the module takes for current, and callers are blocked in their resumes. */
  predicate Safe(s: State) {
    && s.machine.Valid()
    && s.current == s.machine.running
    && CallersOk(s)
  }

  /** A live thread with a caller: that caller is suspended inside the resume of this very thread. */
  predicate CallersOk(s: State) {
    forall t :: t in s.callers ==>
      s.machine.Has(t) && (!s.machine.status[t].Dead? ==> IsBlockedIn(s.machine, s.callers[t], t))
  }

  predicate IsBlockedIn(m: Machine, c: Thread, t: Thread) {
    m.Has(c) && m.status[c] == Suspended(InResume(t))
  }

  const NO_THREAD := [Text("thread expected")]
  const DEAD_TARGET := [Text("cannot transfer to a dead coroutine")]
  const SELF_TRANSFER := [Text("trying to transfer to the running thread")]
  const SELF_RESUME := [Text("trying to resume the running thread")]
  const MAIN_RESUME := [Text("trying to resume the main thread")]
  const MAIN_YIELD := [Text("yielding from the main thread")]
  const NOT_RESUMED := [Text("yielding from a non-resumed thread")]
  const NO_TARGET := [Text("coroutine ended without transferring control")]
  const SELF_FINISH := [Text("coroutine ended by transferring control to itself")]
  const DEAD_FINISH := [Text("coroutine ended by transferring control to a dead coroutine")]

  /** The input that a call returns, or raises, when its thread gets control back. */
  function Answer(at: Point, ok: bool, values: Values): Input {
    if at == InTransfer(true) && !ok then Raised(values) else Result(ok, values)
  }

  /** Where control goes next, with what. */
  datatype Jump = Jump(to: Thread, ok: bool, values: Values)

  function Without(callers: map<Thread, Thread>, t: Thread): map<Thread, Thread> {
    map x | x in callers && x != t :: callers[x]
  }

  /** A thread takes down, or forgets, whom to go on with. */
  function Naming(callers: map<Thread, Thread>, m: Machine, t: Thread, to: Thread): map<Thread, Thread> {
    if m.Has(to) then callers[t := to] else Without(callers, t)
  }

  /** The callers when a thread has ended with `o`, all but its own entry, and what that was. */
  function Last(callers: map<Thread, Thread>, m: Machine, t: Thread, o: Outcome): map<Thread, Thread>
    decreases o
  {
    match o
    case Done(_, _) => callers
    case FinishTo(to, rest) => Last(Naming(callers, m, t, to), m, t, rest)
  }

  /** What an ending thread hands over. */
  function Final(o: Outcome): Outcome
    ensures Final(o).Done?
  {
    match o
    case Done(_, _) => o
    case FinishTo(_, rest) => Final(rest)
  }

  /** Where control goes when a thread ends that has `callers` and hands over ok and values. */
  function Ending(callers: map<Thread, Thread>, m: Machine, t: Thread, ok: bool, values: Values): Jump {
    if t !in callers then
      if ok then Jump(MAIN, false, NO_TARGET) else Jump(MAIN, false, values)
    else
      var caller := callers[t];
      if caller == t then Jump(MAIN, false, SELF_FINISH)
      else if caller != MAIN && m.Has(caller) && m.status[caller].Dead? then Jump(MAIN, false, DEAD_FINISH)
      else Jump(caller, ok, values)
  }

  /** A thread ends with `o`: its entry among the callers is gone, and control goes elsewhere. */
  function AfterFinish(callers: map<Thread, Thread>, m: Machine, t: Thread, o: Outcome): (map<Thread, Thread>, Jump) {
    var last, final := Last(callers, m, t, o), Final(o);
    (Without(last, t), Ending(last, m, t, final.ok, final.values))
  }

  function UnstartedCount(status: seq<Status>): nat {
    if status == [] then 0
    else UnstartedCount(status[..|status| - 1]) + if status[|status| - 1].Unstarted? then 1 else 0
  }

  lemma {:induction false} StartingCounts(status: seq<Status>, t: nat, now: Status)
    requires t < |status| && status[t].Unstarted? && !now.Unstarted?
    ensures UnstartedCount(status[t := now]) == UnstartedCount(status) - 1
  {
    var less := status[..|status| - 1];
    if t == |status| - 1 {
      assert status[t := now][..t] == less;
    } else {
      StartingCounts(less, t, now);
      assert status[t := now][..|status| - 1] == less[t := now];
    }
  }

  /** Inside the trampoline: no body runs, and the main thread waits for the loop to end. */
  predicate Looping(m: Machine) {
    && 0 < |m.status| == |m.inbox|
    && (forall t :: 0 <= t < |m.status| ==> !m.status[t].Running?)
    && m.status[MAIN].Suspended?
  }

  lemma {:induction false} LastEntries(callers: map<Thread, Thread>, m: Machine, t: Thread, o: Outcome)
    ensures var last := Last(callers, m, t, o);
            && (forall x :: x != t ==> (x in last <==> x in callers))
            && (forall x :: x != t && x in last ==> last[x] == callers[x])
            && (t in last && (t in callers ==> m.Has(callers[t])) ==> m.Has(last[t]))
    decreases o
  {
    match o
    case Done(_, _) =>
    case FinishTo(to, rest) => LastEntries(Naming(callers, m, t, to), m, t, rest);
  }

  /** From wherever a thread ends, control goes to a thread that can be resumed. */
  lemma EndingIsResumable(s: State, t: Thread, o: Outcome)
    requires CallersOk(s) && s.machine.Has(t) && Looping(s.machine.With(t, Dead)) && !s.machine.status[t].Dead? && t != MAIN
    requires !s.machine.status[t].Suspended?
    ensures var (callers, jump) := AfterFinish(s.callers, s.machine, t, o);
            && s.machine.With(t, Dead).Resumable(jump.to)
            && CallersOk(State(callers, t, s.machine.With(t, Dead)))
  {
    LastEntries(s.callers, s.machine, t, o);
    var m := s.machine.With(t, Dead);
    var (callers, jump) := AfterFinish(s.callers, s.machine, t, o);
    assert m.status[MAIN] == s.machine.status[MAIN];
    if jump.to != MAIN {
      assert m.status[jump.to] == s.machine.status[jump.to];
    }
    forall x | x in callers
      ensures m.Has(x) && (!m.status[x].Dead? ==> IsBlockedIn(m, callers[x], x))
    {
      assert x in s.callers && callers[x] == s.callers[x];
    }
  }

  // ---------- Calls ----------

  /** The trampoline: resume the thread to go to; if it ends at once, go on from there. */
  function AfterGo(p: Program, s: State, jump: Jump): (s': State)
    requires Looping(s.machine) && CallersOk(s) && s.machine.Resumable(jump.to)
    ensures Safe(s') && Delivered(s.machine, s'.machine)
    decreases UnstartedCount(s.machine.status)
  {
    var t := jump.to;
    match s.machine.status[t]
    case Unstarted =>
      if jump.ok then
        State(s.callers, t, s.machine.Run(t).Receive(t, Started(jump.values)))
      else
        var o := p.onfinish(t, Done(false, jump.values));
        var (callers, next) := AfterFinish(s.callers, s.machine, t, o);
        EndingIsResumable(s, t, o);
        StartingCounts(s.machine.status, t, Dead);
        AfterGo(p, State(callers, t, s.machine.With(t, Dead)), next)
    case Suspended(at) =>
      State(
        if at.InResume? then Without(s.callers, at.of) else s.callers,
        t,
        s.machine.Run(t).Receive(t, Answer(at, jump.ok, jump.values)))
  }

  /** Dead threads stay dead. */
  lemma {:induction false} GoKeepsDead(p: Program, s: State, jump: Jump, t: Thread)
    requires Looping(s.machine) && CallersOk(s) && s.machine.Resumable(jump.to)
    requires s.machine.Has(t) && s.machine.status[t].Dead?
    ensures AfterGo(p, s, jump).machine.Has(t) && AfterGo(p, s, jump).machine.status[t].Dead?
    decreases UnstartedCount(s.machine.status)
  {
    if s.machine.status[jump.to].Unstarted? && !jump.ok {
      var o := p.onfinish(jump.to, Done(false, jump.values));
      var (callers, next) := AfterFinish(s.callers, s.machine, jump.to, o);
      EndingIsResumable(s, jump.to, o);
      StartingCounts(s.machine.status, jump.to, Dead);
      GoKeepsDead(p, State(callers, jump.to, s.machine.With(jump.to, Dead)), next, t);
    }
  }

  /** One thread, the one that runs then, has received one input; no other has received anything. */
  predicate Delivered(m: Machine, m': Machine) {
    && m'.running < |m'.inbox| == |m.inbox|
    && |m'.inbox[m'.running]| == |m.inbox[m'.running]| + 1
    && m'.inbox[m'.running][..|m.inbox[m'.running]|] == m.inbox[m'.running]
    && forall t :: 0 <= t < |m.inbox| && t != m'.running ==> m'.inbox[t] == m.inbox[t]
  }

  /** An error is raised in the running body. */
  function AfterRaise(s: State, values: Values): (s': State)
    requires s.machine.Valid() && s.current == s.machine.running
    ensures s'.callers == s.callers && s'.current == s.current && s'.machine.status == s.machine.status
    ensures s'.machine.Valid() && s'.current == s'.machine.running && Delivered(s.machine, s'.machine)
  {
    s.(machine := s.machine.Receive(s.current, Raised(values)))
  }

  /** Safe, apart from `of`, which is about to be resumed by the current thread. */
  predicate Calling(s: State, at: Point) {
    && s.machine.Valid()
    && s.current == s.machine.running
    && match at
       case InTransfer(_) => CallersOk(s)
       case InResume(of) =>
         && s.machine.Has(of) && of != s.current
         && of in s.callers && s.callers[of] == s.current
         && CallersOk(s.(callers := Without(s.callers, of)))
  }

  /** transfer_with, when its thread would be suspended at `at`. */
  function AfterTransfer(p: Program, s: State, jump: Jump, at: Point): (s': State)
    requires Calling(s, at) && (at.InResume? ==> jump.to == at.of)
    ensures Safe(s') && Delivered(s.machine, s'.machine)
  {
    var m := s.machine;
    if !m.Has(jump.to) then AfterRaise(s, NO_THREAD)
    else if m.status[jump.to].Dead? then
      StaleCaller(s, at);
      AfterRaise(s, DEAD_TARGET)
    else if jump.to == s.current then AfterRaise(s, SELF_TRANSFER)
    else
      Suspending(s, at);
      AfterGo(p, s.(machine := m.With(s.current, Suspended(at))), jump)
  }

  /** The caller of a dead thread does no harm. */
  lemma StaleCaller(s: State, at: Point)
    requires Calling(s, at) && (at.InResume? ==> s.machine.status[at.of].Dead?)
    ensures CallersOk(s)
  {
    if at.InResume? {
      forall t | t in s.callers
        ensures s.machine.Has(t) && (!s.machine.status[t].Dead? ==> IsBlockedIn(s.machine, s.callers[t], t))
      {
        if t != at.of {
          assert t in Without(s.callers, at.of);
        }
      }
    }
  }

  /** A thread that is suspended in the resume it has noted down is a proper caller. */
  lemma Suspending(s: State, at: Point)
    requires Calling(s, at)
    ensures CallersOk(s.(machine := s.machine.With(s.current, Suspended(at))))
  {
    var m := s.machine.With(s.current, Suspended(at));
    forall t | t in s.callers
      ensures m.Has(t) && (!m.status[t].Dead? ==> IsBlockedIn(m, s.callers[t], t))
    {
      if at == InResume(t) {
        assert IsBlockedIn(m, s.callers[t], t);
      } else {
        if at.InResume? {
          assert t in Without(s.callers, at.of);
        }
        assert s.machine.Has(t);
        assert m.status[t].Dead? <==> s.machine.status[t].Dead?;
        if !m.status[t].Dead? {
          assert IsBlockedIn(s.machine, s.callers[t], t);
          assert s.callers[t] != s.current;
        }
      }
    }
  }

  function AfterResume(p: Program, s: State, jump: Jump): (s': State)
    requires Safe(s)
    ensures Safe(s') && Delivered(s.machine, s'.machine)
  {
    if jump.to == s.current then AfterRaise(s, SELF_RESUME)
    else if jump.to == MAIN then AfterRaise(s, MAIN_RESUME)
    else if !s.machine.Has(jump.to) then AfterRaise(s, NO_THREAD)
    else
      Noting(s, jump.to);
      AfterTransfer(p, s.(callers := s.callers[jump.to := s.current]), jump, InResume(jump.to))
  }

  lemma Noting(s: State, to: Thread)
    requires Safe(s) && s.machine.Has(to) && to != s.current
    ensures Calling(s.(callers := s.callers[to := s.current]), InResume(to))
  {
    var callers := Without(s.callers[to := s.current], to);
    assert callers == Without(s.callers, to);
    forall t | t in callers
      ensures s.machine.Has(t) && (!s.machine.status[t].Dead? ==> IsBlockedIn(s.machine, callers[t], t))
    {
      assert t in s.callers;
    }
  }

  function AfterYield(p: Program, s: State, values: Values): (s': State)
    requires Safe(s)
    ensures Safe(s') && Delivered(s.machine, s'.machine)
  {
    if s.current == MAIN then AfterRaise(s, MAIN_YIELD)
    else if s.current !in s.callers then AfterRaise(s, NOT_RESUMED)
    else AfterTransfer(p, s, Jump(s.callers[s.current], true, values), InTransfer(true))
  }

  /** A body other than the main one comes to its end. */
  function AfterEnd(p: Program, s: State, o: Outcome): (s': State)
    requires Safe(s) && s.current != MAIN
    ensures Safe(s') && Delivered(s.machine, s'.machine)
  {
    var t, o' := s.current, p.onfinish(s.current, o);
    var (callers, jump) := AfterFinish(s.callers, s.machine, t, o');
    EndingIsResumable(s, t, o');
    AfterGo(p, State(callers, t, s.machine.With(t, Dead)), jump)
  }

  function AfterCreate(s: State): (s': State)
    requires Safe(s)
    ensures Safe(s')
  {
    var n := |s.machine.status|;
    var m := s.machine.Receive(s.current, Result(true, [Ref(n)]));
    var s' := s.(machine := m.(status := m.status + [Unstarted], inbox := m.inbox + [[]]));
    assert forall t :: t in s.callers ==> s'.machine.status[t] == s.machine.status[t];
    s'
  }

  /** What a call of the running body does; nothing more happens when the main body ends. */
  function AfterCall(p: Program, s: State, a: Action): (s': State)
    requires Safe(s) && !(a.Finish? && s.current == MAIN)
    ensures Safe(s')
  {
    match a
    case Create => AfterCreate(s)
    case TransferWith(to, ok, values) => AfterTransfer(p, s, Jump(to, ok, values), InTransfer(false))
    case Transfer(to, values) => AfterTransfer(p, s, Jump(to, true, values), InTransfer(true))
    case ResumeWith(to, ok, values) => AfterResume(p, s, Jump(to, ok, values))
    case Resume(to, values) => AfterResume(p, s, Jump(to, true, values))
    case Yield(values) => AfterYield(p, s, values)
    case Finish(o) => AfterEnd(p, s, o)
  }

  /** What the running body does next. */
  function NextAction(p: Program, s: State): Action
    requires Safe(s)
  {
    p.body(s.current, s.machine.inbox[s.current])
  }

  predicate Halted(p: Program, s: State)
    requires Safe(s)
  {
    s.current == MAIN && NextAction(p, s).Finish?
  }

  const START := State(map[], MAIN, Machine([Running], MAIN, [[Started([])]]))

  /** The state after `n` calls, or when the main body ends before that. */
  function AfterCalls(p: Program, n: nat): (s: State)
    ensures Safe(s)
  {
    if n == 0 then START
    else
      var s := AfterCalls(p, n - 1);
      if Halted(p, s) then s else AfterCall(p, s, NextAction(p, s))
  }

  /** A resumed thread always gets through to its resumer, whose resume returns the values. */
  lemma YieldReachesResumer(p: Program, s: State, values: Values)
    requires Safe(s) && s.current != MAIN && s.current in s.callers
    ensures var c, s' := s.callers[s.current], AfterYield(p, s, values);
            && s.machine.Has(c) && c != s.current && s.machine.status[c] == Suspended(InResume(s.current))
            && s'.current == c && s.current !in s'.callers
            && s'.machine.status == s.machine.status[s.current := Suspended(InTransfer(true))][c := Running]
            && s'.machine.inbox == s.machine.inbox[c := s.machine.inbox[c] + [Result(true, values)]]
  {
    assert IsBlockedIn(s.machine, s.callers[s.current], s.current);
  }

  /** An error in a thread that was transferred into comes up in the main thread. */
  lemma ErrorReachesMain(p: Program, s: State, values: Values)
    requires Safe(s) && s.current != MAIN && s.current !in s.callers
    requires p.onfinish(s.current, Done(false, values)) == Done(false, values)
    ensures var s' := AfterEnd(p, s, Done(false, values));
            && s.machine.status[MAIN].Suspended? && s'.current == MAIN
            && s'.machine.inbox[MAIN] == s.machine.inbox[MAIN] + [Answer(s.machine.status[MAIN].at, false, values)]
  {
    assert s.machine.status[MAIN].Suspended?;
  }

  /** A thread that ends by naming a suspended thread hands its values to that thread, whoever called it. */
  lemma FinishReachesTarget(p: Program, s: State, to: Thread, ok: bool, values: Values)
    requires Safe(s) && s.current != MAIN && s.machine.Has(to) && s.machine.status[to].Suspended?
    requires p.onfinish(s.current, FinishTo(to, Done(ok, values))) == FinishTo(to, Done(ok, values))
    ensures var s' := AfterEnd(p, s, FinishTo(to, Done(ok, values)));
            && s'.current == to && s'.machine.status[s.current].Dead?
            && s'.machine.inbox[to] == s.machine.inbox[to] + [Answer(s.machine.status[to].at, ok, values)]
  {
    var o := Done(ok, values);
    var callers := Naming(s.callers, s.machine, s.current, to);
    assert Last(callers, s.machine, s.current, o) == callers && Final(o) == o;
    assert Last(s.callers, s.machine, s.current, FinishTo(to, o)) == callers && Final(FinishTo(to, o)) == o;
    assert to != s.current && callers[s.current] == to;
  }

  // ---------- The module ----------

  /** The variables of the module, and the native threads it works on. */
  class Coro {
    const program: Program
    var callers: map<Thread, Thread>
    var current: Thread
    var machine: Machine

    ghost function View(): State
      reads this
    {
      State(callers, current, machine)
    }

    ghost predicate Valid()
      reads this
    {
      Safe(View())
    }

    constructor (program: Program)
      ensures Valid() && View() == START && this.program == program
    {
      this.program := program;
      callers, current, machine := map[], MAIN, Machine([Running], MAIN, [[Started([])]]);
    }

    /** Native yield, and what the main thread does instead of it: the running thread stops in a call. */
    method Suspend(at: Point)
      requires machine.Valid()
      modifies this`machine
      ensures machine == old(machine.With(machine.running, Suspended(at)))
    {
      machine := machine.With(machine.running, Suspended(at));
    }

    /** The rest of transfer_with and of resume_with, once their thread has got control back. */
    method Return(at: Point, ok: bool, values: Values)
      requires current < |machine.status| == |machine.inbox|
      modifies this`callers, this`machine
      ensures callers == if at.InResume? then Without(old(callers), at.of) else old(callers)
      ensures machine == old(machine.Run(current).Receive(current, Answer(at, ok, values)))
    {
      machine := machine.Run(current);
      if at.InResume? {
        callers := Without(callers, at.of);
      }
      machine := machine.Receive(current, Answer(at, ok, values));
    }

    /** finish: the thread ends by going on with its caller, or with the thread it names. */
    method Finish(thread: Thread, o: Outcome) returns (jump: Jump)
      modifies this`callers
      ensures (callers, jump) == AfterFinish(old(callers), machine, thread, o)
    {
      var rest := o;
      while rest.FinishTo?
        invariant Last(callers, machine, thread, rest) == Last(old(callers), machine, thread, o) && Final(rest) == Final(o)
        decreases rest
      {
        callers := Naming(callers, machine, thread, rest.to);
        rest := rest.rest;
      }
      ghost var last := callers;
      var caller: Option<Thread> := if thread in callers then Some(callers[thread]) else None;
      callers := Without(callers, thread);
      match caller {
        case None =>
          jump := if rest.ok then Jump(MAIN, false, NO_TARGET) else Jump(MAIN, rest.ok, rest.values);
        case Some(c) =>
          if c == thread {
            jump := Jump(MAIN, false, SELF_FINISH);
          } else if c != MAIN && machine.Has(c) && machine.status[c].Dead? {
            jump := Jump(MAIN, false, DEAD_FINISH);
          } else {
            jump := Jump(c, rest.ok, rest.values);
          }
      }
    }

    /** The main function of a thread is done. */
    method EndThread(thread: Thread, o: Outcome) returns (jump: Jump)
      requires machine.Has(thread)
      modifies this`callers, this`machine
      ensures (callers, jump) == AfterFinish(old(callers), old(machine), thread, program.onfinish(thread, o))
      ensures machine == old(machine).With(thread, Dead)
    {
      jump := Finish(thread, program.onfinish(thread, o));
      machine := machine.With(thread, Dead);
    }

    /**
     Native resume, only ever called by the main thread: the thread must be unstarted or suspended.
     Unless it ends at once, its body has control then.
     */
    method NativeResume(to: Thread, ok: bool, values: Values) returns (back: Option<Jump>)
      requires Looping(machine) && machine.Resumable(to) && to != MAIN && current == to
      modifies this`callers, this`machine
      ensures old(machine.status[to].Unstarted?) && ok ==>
                back == None && callers == old(callers) && machine == old(machine.Run(to).Receive(to, Started(values)))
      ensures old(machine.status[to].Unstarted?) && !ok ==>
                && back.Some? && machine == old(machine).With(to, Dead)
                && (callers, back.value) == AfterFinish(old(callers), old(machine), to, program.onfinish(to, Done(false, values)))
      ensures old(machine.status[to].Suspended?) ==>
                var at := old(machine.status[to].at);
                && back == None && callers == (if at.InResume? then Without(old(callers), at.of) else old(callers))
                && machine == old(machine.Run(to).Receive(to, Answer(machine.status[to].at, ok, values)))
    {
      match machine.status[to] {
        case Unstarted =>
          if ok {
            machine := machine.Run(to).Receive(to, Started(values));
            back := None;
          } else {
            var jump := EndThread(to, Done(false, values));
            back := Some(jump);
          }
        case Suspended(at) =>
          Return(at, ok, values);
          back := None;
      }
    }

    /** go: the trampoline. */
    method Go(jump: Jump)
      requires Looping(machine) && CallersOk(View()) && machine.Resumable(jump.to)
      modifies this
      ensures Valid() && View() == AfterGo(program, old(View()), jump)
    {
      hide CallersOk, AfterFinish;
      var next := jump;
      while true
        invariant Looping(machine) && CallersOk(View()) && machine.Resumable(next.to)
        invariant AfterGo(program, View(), next) == AfterGo(program, old(View()), jump)
        decreases UnstartedCount(machine.status)
      {
        ghost var s := View();
        current := next.to;
        if next.to == MAIN {
          Return(machine.status[MAIN].at, next.ok, next.values);
          return;
        }
        if machine.status[next.to].Unstarted? && !next.ok {
          EndingIsResumable(s, next.to, program.onfinish(next.to, Done(false, next.values)));
          StartingCounts(machine.status, next.to, Dead);
        }
        var back := NativeResume(next.to, next.ok, next.values);
        match back {
          case None => return;
          case Some(j) => next := j;
        }
      }
    }

    method RaiseError(message: Values)
      requires machine.Valid() && current == machine.running
      modifies this`machine
      ensures View() == AfterRaise(old(View()), message)
    {
      machine := machine.Receive(current, Raised(message));
    }

    /** transfer_with, called by the running body; `at` is where it is suspended meanwhile. */
    method TransferWith(to: Thread, ok: bool, values: Values, at: Point)
      requires Calling(View(), at) && (at.InResume? ==> to == at.of)
      modifies this
      ensures Valid() && View() == AfterTransfer(program, old(View()), Jump(to, ok, values), at)
    {
      if !machine.Has(to) {
        RaiseError(NO_THREAD);
      } else if machine.status[to].Dead? {
        StaleCaller(View(), at);
        RaiseError(DEAD_TARGET);
      } else if to == current {
        RaiseError(SELF_TRANSFER);
      } else {
        Suspending(View(), at);
        Suspend(at);
        Go(Jump(to, ok, values));
      }
    }

    /** resume_with: note down the caller, then transfer. */
    method ResumeWith(to: Thread, ok: bool, values: Values)
      requires Valid()
      modifies this
      ensures Valid() && View() == AfterResume(program, old(View()), Jump(to, ok, values))
    {
      if to == current {
        RaiseError(SELF_RESUME);
      } else if to == MAIN {
        RaiseError(MAIN_RESUME);
      } else if !machine.Has(to) {
        RaiseError(NO_THREAD);
      } else {
        Noting(View(), to);
        callers := callers[to := current];
        TransferWith(to, ok, values, InResume(to));
      }
    }

    /** coro.yield: transfer to whoever has resumed the current thread. */
    method YieldValues(values: Values)
      requires Valid()
      modifies this
      ensures Valid() && View() == AfterYield(program, old(View()), values)
    {
      if current == MAIN {
        RaiseError(MAIN_YIELD);
      } else if current !in callers {
        RaiseError(NOT_RESUMED);
      } else {
        TransferWith(callers[current], true, values, InTransfer(true));
      }
    }

    /** The running body, not the main one, returns or raises. */
    method EndBody(o: Outcome)
      requires Valid() && current != MAIN
      modifies this
      ensures Valid() && View() == AfterEnd(program, old(View()), o)
    {
      EndingIsResumable(View(), current, program.onfinish(current, o));
      var jump := EndThread(current, o);
      Go(jump);
    }

    method CreateThread()
      requires Valid()
      modifies this`machine
      ensures Valid() && View() == AfterCreate(old(View()))
    {
      var n := |machine.status|;
      machine := machine.Receive(current, Result(true, [Ref(n)]));
      machine := machine.(status := machine.status + [Unstarted], inbox := machine.inbox + [[]]);
    }

    /** The running body makes its next call. */
    method Step()
      requires Valid() && !Halted(program, View())
      modifies this
      ensures Valid() && View() == AfterCall(program, old(View()), NextAction(program, old(View())))
    {
      hide AfterTransfer, AfterResume, AfterYield, AfterEnd, AfterCreate;
      match program.body(current, machine.inbox[current]) {
        case Create => CreateThread();
        case TransferWith(to, ok, values) => TransferWith(to, ok, values, InTransfer(false));
        case Transfer(to, values) => TransferWith(to, true, values, InTransfer(true));
        case ResumeWith(to, ok, values) => ResumeWith(to, ok, values);
        case Resume(to, values) => ResumeWith(to, true, values);
        case Yield(values) => YieldValues(values);
        case Finish(o) => EndBody(o);
      }
    }
  }

  /** Run any program for up to `n` calls: the module stays safe all the time. */
  method Run(program: Program, n: nat) returns (c: Coro)
    ensures fresh(c) && c.Valid() && c.View() == AfterCalls(program, n)
  {
    c := new Coro(program);
    for i := 0 to n
      invariant fresh(c) && c.Valid() && c.program == program && c.View() == AfterCalls(program, i)
    {
      if !(c.current == MAIN && program.body(MAIN, c.machine.inbox[MAIN]).Finish?) {
        c.Step();
      }
    }
  }
}

/**
 Asymmetric coroutines as in section 2.11 of the Lua 5.1 manual, with an explicit stack of
 threads, and the proof that programs within that fragment cannot tell the difference.
 */
module AsymmetricCoroutines {
  import opened Options
  import opened Coroutines

  datatype Mode = Fresh | Yielded | Active | Finished

  /** The running thread is on top; each one below has resumed the one above it. */
  datatype Stack = Stack(threads: seq<Thread>, modes: seq<Mode>, inbox: seq<seq<Input>>) {
    predicate Valid() {
      && threads != [] && threads[0] == MAIN
      && 0 < |modes| == |inbox|
      && (forall i :: 0 <= i < |threads| ==> threads[i] < |modes|)
      && (forall i, j :: 0 <= i < j < |threads| ==> threads[i] != threads[j])
      && (forall t :: 0 <= t < |modes| ==> (modes[t].Active? <==> t in threads))
    }

    function Top(): Thread
      requires Valid()
    {
      threads[|threads| - 1]
    }

    function Receive(t: Thread, input: Input): Stack
      requires t < |inbox|
    {
      this.(inbox := inbox[t := inbox[t] + [input]])
    }

    /** The top thread leaves the stack; the one below it goes on. */
    function Pop(mode: Mode, ok: bool, values: Values): (s: Stack)
      requires Valid() && |threads| > 1 && !mode.Active?
      ensures s.Valid()
    {
      var below := threads[|threads| - 2];
      var s := Stack(threads[..|threads| - 1], modes[Top() := mode], inbox).Receive(below, Result(ok, values));
      assert threads == s.threads + [Top()];
      s
    }

    function Push(t: Thread, input: Input): (s: Stack)
      requires Valid() && t < |modes| && !modes[t].Active?
      ensures s.Valid()
    {
      Stack(threads + [t], modes[t := Active], inbox).Receive(t, input)
    }

    /** What a call of the running body does; nothing for a program that leaves the fragment. */
    function Act(p: Program, a: Action): (r: Option<Stack>)
      requires Valid()
      ensures r.Some? ==> r.value.Valid()
    {
      match a
      case Create =>
        var s := Receive(Top(), Result(true, [Ref(|modes|)]));
        Some(s.(modes := modes + [Fresh], inbox := s.inbox + [[]]))
      case Resume(to, values) =>
        if to >= |modes| then None
        else if modes[to].Fresh? then Some(Push(to, Started(values)))
        else if modes[to].Yielded? then Some(Push(to, Result(true, values)))
        else None
      case Yield(values) =>
        if |threads| == 1 then Some(Receive(MAIN, Raised(MAIN_YIELD))) else Some(Pop(Yielded, true, values))
      case Finish(o) =>
        if |threads| == 1 then None
        else
          (match p.onfinish(Top(), o)
           case Done(ok, values) => Some(Pop(Mode.Finished, ok, values))
           case FinishTo(_, _) => None)
      case _ => None
    }
  }

  const START := Stack([MAIN], [Active], [[Started([])]])

  /** The stack after `n` calls, as long as the program keeps to the fragment. */
  function After(p: Program, n: nat): (r: Option<Stack>)
    ensures r.Some? ==> r.value.Valid()
  {
    if n == 0 then Some(START)
    else
      match After(p, n - 1)
      case None => None
      case Some(s) =>
        var a := p.body(s.Top(), s.inbox[s.Top()]);
        if |s.threads| == 1 && a.Finish? then Some(s) else s.Act(p, a)
  }

  // ---------- Simulation ----------

  /** How a thread off the stack, or on top of it, looks to the module. */
  predicate Looks(mode: Mode, status: Status) {
    match mode
    case Fresh => status.Unstarted?
    case Yielded => status == Suspended(InTransfer(true))
    case Active => status.Running? || (status.Suspended? && status.at.InResume?)
    case Finished => status.Dead?
  }

  /** The map of callers holds exactly the links of the stack. */
  predicate Represents(s: State, k: Stack)
    requires Safe(s) && k.Valid()
  {
    && k.inbox == s.machine.inbox && |k.modes| == |s.machine.status|
    && s.current == k.Top()
    && (forall t :: 0 <= t < |k.modes| ==> Looks(k.modes[t], s.machine.status[t]))
    && (forall i :: 0 < i < |k.threads| ==> Linked(s, k.threads[i - 1], k.threads[i]))
    && (forall t :: t in s.callers ==> t in k.threads && t != MAIN)
  }

  predicate Linked(s: State, below: Thread, above: Thread) {
    && above in s.callers && s.callers[above] == below
    && s.machine.Has(below) && s.machine.status[below] == Suspended(InResume(above))
  }

  /** One more thread on the stack. */
  lemma Pushed(s: State, s': State, k: Stack, to: Thread, input: Input)
    requires Safe(s) && k.Valid() && Represents(s, k) && Safe(s')
    requires to < |k.modes| && !k.modes[to].Active? && to !in s.callers
    requires s'.callers == s.callers[to := s.current] && s'.current == to
    requires s'.machine.status == s.machine.status[s.current := Suspended(InResume(to))][to := Running]
    requires s'.machine.inbox == s.machine.inbox[to := s.machine.inbox[to] + [input]]
    ensures Represents(s', k.Push(to, input))
  {
    hide Safe;
    var k' := k.Push(to, input);
    assert to !in k.threads && k.Top() in k.threads;
    forall i | 0 < i < |k'.threads|
      ensures Linked(s', k'.threads[i - 1], k'.threads[i])
    {
      if i < |k.threads| {
        assert Linked(s, k.threads[i - 1], k.threads[i]);
      }
    }
    forall t | 0 <= t < |k'.modes|
      ensures Looks(k'.modes[t], s'.machine.status[t])
    {
      assert Looks(k.modes[t], s.machine.status[t]);
    }
  }

  /** A resume of a suspended thread is a push. */
  lemma PushSimulates(p: Program, s: State, k: Stack, to: Thread, values: Values)
    requires Safe(s) && k.Valid() && Represents(s, k) && k.Act(p, Resume(to, values)).Some?
    ensures Represents(AfterResume(p, s, Jump(to, true, values)), k.Act(p, Resume(to, values)).value)
  {
    var s' := AfterResume(p, s, Jump(to, true, values));
    assert Looks(k.modes[to], s.machine.status[to]);
    assert to !in k.threads && to !in s.callers;
    Pushed(s, s', k, to, if k.modes[to].Fresh? then Started(values) else Result(true, values));
  }

  /** Links further down are not touched when control goes from the top to the thread below it. */
  lemma LinksBelow(s: State, s': State, k: Stack, status: Status)
    requires k.Valid() && |k.threads| > 1 && s.current == k.Top() && s'.current == k.threads[|k.threads| - 2]
    requires |s.machine.status| == |k.modes|
    requires forall i :: 0 < i < |k.threads| ==> Linked(s, k.threads[i - 1], k.threads[i])
    requires s'.callers == Without(s.callers, s.current)
    requires s'.machine.status == s.machine.status[s.current := status][s'.current := Running]
    ensures forall i :: 0 < i < |k.threads| - 1 ==> Linked(s', k.threads[i - 1], k.threads[i])
  {
    forall i | 0 < i < |k.threads| - 1
      ensures Linked(s', k.threads[i - 1], k.threads[i])
    {
      assert Linked(s, k.threads[i - 1], k.threads[i]);
    }
  }

  /** One thread less on the stack: the one below gets control back in its resume. */
  lemma Popped(s: State, s': State, k: Stack, mode: Mode, status: Status, ok: bool, values: Values)
    requires Safe(s) && k.Valid() && Represents(s, k) && Safe(s')
    requires |k.threads| > 1 && !mode.Active? && Looks(mode, status)
    requires s'.callers == Without(s.callers, s.current) && s'.current == k.threads[|k.threads| - 2]
    requires s'.machine.status == s.machine.status[s.current := status][s'.current := Running]
    requires s'.machine.inbox == s.machine.inbox[s'.current := s.machine.inbox[s'.current] + [Result(ok, values)]]
    ensures Represents(s', k.Pop(mode, ok, values))
  {
    hide Safe, Linked;
    var k' := k.Pop(mode, ok, values);
    LinksBelow(s, s', k, status);
    assert k.threads == k'.threads + [k.Top()];
    forall t | 0 <= t < |k'.modes|
      ensures Looks(k'.modes[t], s'.machine.status[t])
    {
      assert Looks(k.modes[t], s.machine.status[t]);
    }
  }

  /** A thread on the stack, but not at its bottom, has a caller: the one below it. */
  lemma TopIsLinked(s: State, k: Stack)
    requires Safe(s) && k.Valid() && Represents(s, k)
    ensures |k.threads| == 1 <==> s.current == MAIN
    ensures |k.threads| > 1 ==> Linked(s, k.threads[|k.threads| - 2], s.current)
  {
  }

  lemma YieldSimulates(p: Program, s: State, k: Stack, values: Values)
    requires Safe(s) && k.Valid() && Represents(s, k)
    ensures k.Act(p, Yield(values)).Some?
    ensures Represents(AfterYield(p, s, values), k.Act(p, Yield(values)).value)
  {
    TopIsLinked(s, k);
    if |k.threads| > 1 {
      YieldReachesResumer(p, s, values);
      var s' := AfterYield(p, s, values);
      assert s'.callers == Without(s.callers, s.current);
      Popped(s, s', k, Yielded, Suspended(InTransfer(true)), true, values);
    }
  }

  lemma FinishSimulates(p: Program, s: State, k: Stack, o: Outcome)
    requires Safe(s) && k.Valid() && Represents(s, k) && k.Act(p, Finish(o)).Some?
    ensures s.current != MAIN && Represents(AfterEnd(p, s, o), k.Act(p, Finish(o)).value)
  {
    TopIsLinked(s, k);
    var o' := p.onfinish(s.current, o);
    var s' := AfterEnd(p, s, o);
    var c := s.callers[s.current];
    assert IsBlockedIn(s.machine, c, s.current) && c != s.current;
    assert Without(Without(s.callers, s.current), s.current) == Without(s.callers, s.current);
    Popped(s, s', k, Mode.Finished, Dead, o'.ok, o'.values);
  }

  lemma CreateSimulates(p: Program, s: State, k: Stack)
    requires Safe(s) && k.Valid() && Represents(s, k)
    ensures k.Act(p, Create).Some? && Represents(AfterCreate(s), k.Act(p, Create).value)
  {
    var s', k' := AfterCreate(s), k.Act(p, Create).value;
    hide Safe;
    forall i | 0 < i < |k'.threads|
      ensures Linked(s', k'.threads[i - 1], k'.threads[i])
    {
      assert Linked(s, k.threads[i - 1], k.threads[i]);
    }
    forall t | 0 <= t < |k'.modes|
      ensures Looks(k'.modes[t], s'.machine.status[t])
    {
      if t < |k.modes| {
        assert Looks(k.modes[t], s.machine.status[t]);
      }
    }
  }

  lemma StartRepresents(p: Program)
    ensures After(p, 0).Some? && Represents(AfterCalls(p, 0), After(p, 0).value)
  {
  }

  lemma StepSimulates(p: Program, s: State, k: Stack, a: Action)
    requires Safe(s) && k.Valid() && Represents(s, k)
    requires k.Act(p, a).Some? && !(a.Finish? && s.current == MAIN)
    ensures Represents(AfterCall(p, s, a), k.Act(p, a).value)
  {
    hide Represents, Safe, AfterResume, AfterYield, AfterEnd, AfterCreate, AfterTransfer;
    match a {
      case Create => CreateSimulates(p, s, k);
      case Resume(to, values) => PushSimulates(p, s, k, to, values);
      case Yield(values) => YieldSimulates(p, s, k, values);
      case Finish(o) => FinishSimulates(p, s, k, o);
      case _ =>
    }
  }

  /**
   A program that only creates, resumes suspended coroutines, yields and returns gets the same
   values in the same order of control as from a stack of asymmetric coroutines.
   */
  lemma {:induction false} Simulates(p: Program, n: nat)
    requires After(p, n).Some?
    ensures Represents(AfterCalls(p, n), After(p, n).value)
    ensures AfterCalls(p, n).machine.inbox == After(p, n).value.inbox
    ensures AfterCalls(p, n).current == After(p, n).value.Top()
  {
    hide Linked, Looks, AfterCall, Stack.Act, Safe;
    if n == 0 {
      StartRepresents(p);
    } else {
      Simulates(p, n - 1);
      var k, s := After(p, n - 1).value, AfterCalls(p, n - 1);
      TopIsLinked(s, k);
      if !Halted(p, s) {
        StepSimulates(p, s, k, NextAction(p, s));
      }
    }
  }
}
