/** Hook and trigger cascades as threads that run side by side: user threads issue
    mutations, hooks issue nested ones in line, asynchronous hooks wait in a bounded
    queue for the worker, which runs beside everything else. Every schedule of these
    threads is finite and attempts a bounded number of mutations; and the one way in
    which it can get stuck is spelled out. */
module HookSchedules {
  import opened ByteCodec
  import opened Hooks

  const HOOK_QUEUE_SIZE: nat := 1024

  datatype Kind = Insert | Update | Delete | Upsert
  datatype Mutation = Mutation(kind: Kind, coll: Bytes)
  datatype When = Before | After

  /** What a trigger does: set and unset fields of the document at hand, or mutate a
      collection. Setting fields after the event is an update of the same document. */
  datatype Action = SetFields | UnsetFields | Mutates(m: Mutation)

  datatype Hook = Hook(id: nat, when: When, kind: Kind, coll: Bytes, async: bool, actions: seq<Action>)

  const STAR: Bytes := [42]

  predicate Matches(h: Hook, when: When, m: Mutation)
  {
    h.when == when && h.kind == m.kind && (h.coll == [] || h.coll == STAR || h.coll == m.coll)
  }

  function Matching(hooks: seq<Hook>, when: When, m: Mutation): seq<Hook>
  {
    if hooks == [] then [] else
      (if Matches(hooks[0], when, m) then [hooks[0]] else []) + Matching(hooks[1..], when, m)
  }

  // ---------------------------------------------------------------- threads

  /** What a thread has left to do, innermost call last: start a mutation, run the
      hooks left before or after it, do the actions left of one hook. */
  datatype Task =
    | Mutate(f: Frame, m: Mutation)
    | BeforeHooks(f: Frame, m: Mutation, todo: seq<Hook>)
    | AfterHooks(f: Frame, m: Mutation, todo: seq<Hook>)
    | Actions(f: Frame, when: When, m: Mutation, acts: seq<Action>)

  /** A queued asynchronous hook, with the frame of the mutation that queued it. */
  datatype Job = Job(frame: Frame, hook: Hook, m: Mutation)

  /** Thread 0 is the worker. attempts and queued count what has happened so far. */
  datatype State = State(threads: seq<seq<Task>>, queue: seq<Job>, attempts: nat, queued: nat)

  /** How the store answers: whether a mutation is accepted, a trigger's filter
      matches, a document id resolves. Nothing is assumed about it. */
  datatype Answer = Yes | No | Error

  /** A call returns to its caller. An error ends the hook it was made in and,
      through a before-hook, the mutation; after-hooks drop it, and so does a user
      thread, which goes on with its next mutation. */
  function Return(stack: seq<Task>, ok: bool): seq<Task>
    decreases |stack|
  {
    if ok || stack == [] || stack[|stack| - 1].AfterHooks? || stack[|stack| - 1].Mutate? then stack
    else Return(stack[..|stack| - 1], false)
  }

  /** Start a hook in its own frame; the filter of a trigger may skip its actions. */
  function Enter(stack: seq<Task>, child: Frame, h: Hook, m: Mutation, answer: Answer): seq<Task>
  {
    match answer
    case Yes => stack + [Actions(child, h.when, m, h.actions)]
    case No => stack
    case Error => Return(stack, false)
  }

  function DoAction(stack: seq<Task>, t: Task, answer: Answer): seq<Task>
    requires t.Actions? && t.acts != []
  {
    var rest := stack + [t.(acts := t.acts[1..])];
    match t.acts[0]
    case SetFields => if t.when.Before? then rest else rest + [Mutate(t.f, Mutation(Update, t.m.coll))]
    case UnsetFields => rest
    case Mutates(m) => if answer.Error? then Return(stack, false) else rest + [Mutate(t.f, m)]
  }

  /** The next thing on this thread is to put a job into the queue. */
  predicate AtEnqueue(stack: seq<Task>)
  {
    stack != [] && stack[|stack| - 1].AfterHooks? && stack[|stack| - 1].todo != [] && stack[|stack| - 1].todo[0].async
  }

  predicate CanMove(s: State, t: nat)
  {
    && t < |s.threads|
    && if s.threads[t] == [] then t == 0 && s.queue != []
       else AtEnqueue(s.threads[t]) ==> |s.queue| < HOOK_QUEUE_SIZE
  }

  /** One step of one thread; an idle worker takes the oldest job. */
  function Moved(hooks: seq<Hook>, s: State, t: nat, answer: Answer): State
    requires CanMove(s, t)
  {
    if s.threads[t] == [] then
      var j := s.queue[0];
      var next := match Begin(j.frame, j.hook.id)
        case Entered(child) => Enter([], child, j.hook, j.m, answer)
        case _ => [];
      s.(threads := s.threads[t := next], queue := s.queue[1..])
    else
      var top := s.threads[t][|s.threads[t]| - 1];
      if AtEnqueue(s.threads[t]) then
        s.(threads := s.threads[t := Front(s.threads[t]) + [top.(todo := top.todo[1..])]],
           queue := s.queue + [Job(top.f, top.todo[0], top.m)], queued := s.queued + 1)
      else
        s.(threads := s.threads[t := Stepped(hooks, Front(s.threads[t]), top, answer)],
           attempts := s.attempts + if top.Mutate? then 1 else 0)
  }

  function Front<T>(s: seq<T>): seq<T>
    requires s != []
  {
    s[..|s| - 1]
  }

  function Stepped(hooks: seq<Hook>, stack: seq<Task>, top: Task, answer: Answer): seq<Task>
  {
    match top
    case Mutate(f, m) =>
      if answer.Yes? then stack + [BeforeHooks(f, m, Matching(hooks, Before, m))] else Return(stack, false)
    case BeforeHooks(f, m, todo) =>
      if todo == [] then
        // the mutation itself
        if answer.Yes? then stack + [AfterHooks(f, m, Matching(hooks, After, m))] else Return(stack, false)
      else (
        match Begin(f, todo[0].id)
        case Entered(child) => Enter(stack + [BeforeHooks(f, m, todo[1..])], child, todo[0], m, answer)
        case _ => Return(stack, false))
    case AfterHooks(f, m, todo) =>
      if todo == [] then Return(stack, true)
      else (
        match Begin(f, todo[0].id)
        case Entered(child) => Enter(stack + [AfterHooks(f, m, todo[1..])], child, todo[0], m, answer)
        case _ => stack + [AfterHooks(f, m, todo[1..])])
    case Actions(_, _, _, acts) => if acts == [] then Return(stack, true) else DoAction(stack, top, answer)
  }

  // ---------------------------------------------------------------- what work costs

  /** Prices of an attempted mutation, of a queued job and of a step: with the right
      prices one account bounds each of the three. */
  datatype Prices = Prices(attempt: nat, job: nat, step: nat)

  /** The most a hook can cost with n levels left, in line or queued. */
  function HookCost(hooks: seq<Hook>, p: Prices, h: Hook, n: nat): nat
    decreases n, 1
  {
    p.job + 3 * p.step + ActionsCost(hooks, p, |h.actions|, n)
  }

  /** count actions of a hook that starts with n levels left. */
  function ActionsCost(hooks: seq<Hook>, p: Prices, count: nat, n: nat): nat
    decreases n, 0
  {
    if n == 0 then 0 else count * (p.step + MutationCost(hooks, p, n - 1))
  }

  function HooksCost(hooks: seq<Hook>, p: Prices, todo: seq<Hook>, n: nat): nat
    decreases n, 2, |todo|
  {
    if todo == [] then 0 else HookCost(hooks, p, todo[0], n) + HooksCost(hooks, p, todo[1..], n)
  }

  /** The most one mutation can cost with everything it sets off. */
  function MutationCost(hooks: seq<Hook>, p: Prices, n: nat): nat
    decreases n, 3
  {
    p.attempt + 3 * p.step + HooksCost(hooks, p, hooks, n)
  }

  function TaskCost(hooks: seq<Hook>, p: Prices, t: Task): nat
  {
    match t
    case Mutate(f, m) => MutationCost(hooks, p, Left(f))
    case BeforeHooks(f, m, todo) =>
      2 * p.step + HooksCost(hooks, p, todo, Left(f)) + HooksCost(hooks, p, Matching(hooks, After, m), Left(f))
    case AfterHooks(f, m, todo) => p.step + HooksCost(hooks, p, todo, Left(f))
    case Actions(f, _, _, acts) => p.step + |acts| * (p.step + MutationCost(hooks, p, Left(f)))
  }

  function StackCost(hooks: seq<Hook>, p: Prices, stack: seq<Task>): nat
  {
    if stack == [] then 0 else
      StackCost(hooks, p, stack[..|stack| - 1]) + TaskCost(hooks, p, stack[|stack| - 1])
  }

  function JobCost(hooks: seq<Hook>, p: Prices, j: Job): nat
  {
    2 * p.step + ActionsCost(hooks, p, |j.hook.actions|, Left(j.frame))
  }

  function QueueCost(hooks: seq<Hook>, p: Prices, q: seq<Job>): nat
  {
    if q == [] then 0 else JobCost(hooks, p, q[0]) + QueueCost(hooks, p, q[1..])
  }

  function ThreadsCost(hooks: seq<Hook>, p: Prices, ts: seq<seq<Task>>): nat
  {
    if ts == [] then 0 else StackCost(hooks, p, ts[0]) + ThreadsCost(hooks, p, ts[1..])
  }

  /** What has been spent and what is still owed. */
  function Account(hooks: seq<Hook>, p: Prices, s: State): nat
  {
    p.attempt * s.attempts + p.job * s.queued + ThreadsCost(hooks, p, s.threads) + QueueCost(hooks, p, s.queue)
  }

  // ---------------------------------------------------------------- every step pays

  lemma StackSnoc(hooks: seq<Hook>, p: Prices, stack: seq<Task>, t: Task)
    ensures StackCost(hooks, p, stack + [t]) == StackCost(hooks, p, stack) + TaskCost(hooks, p, t)
  {
    hide TaskCost;
    assert (stack + [t])[..|stack|] == stack;
  }

  lemma {:induction false} ReturnIsFree(hooks: seq<Hook>, p: Prices, stack: seq<Task>, ok: bool)
    ensures StackCost(hooks, p, Return(stack, ok)) <= StackCost(hooks, p, stack)
    decreases |stack|
  {
    hide TaskCost;
    if !ok && stack != [] && !stack[|stack| - 1].AfterHooks? && !stack[|stack| - 1].Mutate? {
      ReturnIsFree(hooks, p, stack[..|stack| - 1], false);
    }
  }

  /** Each hook matches an event before it or after it, never both. */
  lemma {:induction false} MatchingCost(hooks: seq<Hook>, p: Prices, hs: seq<Hook>, m: Mutation, n: nat)
    ensures HooksCost(hooks, p, Matching(hs, Before, m), n) + HooksCost(hooks, p, Matching(hs, After, m), n)
            <= HooksCost(hooks, p, hs, n)
  {
    hide HookCost;
    if hs != [] {
      MatchingCost(hooks, p, hs[1..], m, n);
      assert Matching(hs, Before, m) == if Matches(hs[0], Before, m) then [hs[0]] + Matching(hs[1..], Before, m)
                                        else Matching(hs[1..], Before, m);
      assert Matching(hs, After, m) == if Matches(hs[0], After, m) then [hs[0]] + Matching(hs[1..], After, m)
                                       else Matching(hs[1..], After, m);
      ConsCost(hooks, p, hs[0], Matching(hs[1..], Before, m), n);
      ConsCost(hooks, p, hs[0], Matching(hs[1..], After, m), n);
    }
  }

  lemma ConsCost(hooks: seq<Hook>, p: Prices, h: Hook, todo: seq<Hook>, n: nat)
    ensures HooksCost(hooks, p, [h] + todo, n) == HookCost(hooks, p, h, n) + HooksCost(hooks, p, todo, n)
  {
    hide HookCost;
    assert ([h] + todo)[1..] == todo;
  }

  lemma FirstHook(hooks: seq<Hook>, p: Prices, todo: seq<Hook>, n: nat)
    requires todo != []
    ensures HooksCost(hooks, p, todo, n)
            == p.job + 3 * p.step + ActionsCost(hooks, p, |todo[0].actions|, n) + HooksCost(hooks, p, todo[1..], n)
  {
    hide ActionsCost;
  }

  /** Starting a hook one level down costs what was set aside for its actions. */
  lemma EnterPays(hooks: seq<Hook>, p: Prices, stack: seq<Task>, f: Frame, child: Frame, h: Hook, m: Mutation,
      answer: Answer)
    requires Begin(f, h.id) == Entered(child)
    ensures StackCost(hooks, p, Enter(stack, child, h, m, answer))
            <= StackCost(hooks, p, stack) + p.step + ActionsCost(hooks, p, |h.actions|, Left(f))
  {
    hide MutationCost;
    assert Left(f) > 0 && Left(child) == Left(f) - 1;
    ReturnIsFree(hooks, p, stack, false);
    StackSnoc(hooks, p, stack, Actions(child, h.when, m, h.actions));
  }

  lemma ActionPays(hooks: seq<Hook>, p: Prices, stack: seq<Task>, t: Task, answer: Answer)
    requires t.Actions? && t.acts != []
    ensures StackCost(hooks, p, DoAction(stack, t, answer)) + p.step
            <= StackCost(hooks, p, stack) + TaskCost(hooks, p, t)
  {
    hide MutationCost, StackCost;
    var rest := t.(acts := t.acts[1..]);
    var each := p.step + MutationCost(hooks, p, Left(t.f));
    OneLess(|t.acts|, each);
    StackSnoc(hooks, p, stack, rest);
    StackSnoc(hooks, p, stack + [rest], Mutate(t.f, Mutation(Update, t.m.coll)));
    if t.acts[0].Mutates? { StackSnoc(hooks, p, stack + [rest], Mutate(t.f, t.acts[0].m)); }
    ReturnIsFree(hooks, p, stack, false);
  }

  lemma OneLess(n: nat, c: nat)
    requires n > 0
    ensures n * c == c + (n - 1) * c && (n - 1) * c >= 0
  {
  }

  lemma BeforePays(hooks: seq<Hook>, p: Prices, stack: seq<Task>, top: Task, answer: Answer)
    requires top.BeforeHooks?
    ensures StackCost(hooks, p, Stepped(hooks, stack, top, answer)) + p.step
            <= StackCost(hooks, p, stack) + TaskCost(hooks, p, top)
  {
    hide StackCost, MutationCost, Matching, ActionsCost, Enter, Return;
    ReturnIsFree(hooks, p, stack, false);
    if top.todo == [] {
      StackSnoc(hooks, p, stack, AfterHooks(top.f, top.m, Matching(hooks, After, top.m)));
    } else {
      var rest := top.(todo := top.todo[1..]);
      FirstHook(hooks, p, top.todo, Left(top.f));
      StackSnoc(hooks, p, stack, rest);
      match Begin(top.f, top.todo[0].id)
      case Entered(child) => EnterPays(hooks, p, stack + [rest], top.f, child, top.todo[0], top.m, answer);
      case _ =>
    }
  }

  lemma AfterPays(hooks: seq<Hook>, p: Prices, stack: seq<Task>, top: Task, answer: Answer)
    requires top.AfterHooks?
    ensures StackCost(hooks, p, Stepped(hooks, stack, top, answer)) + p.step
            <= StackCost(hooks, p, stack) + TaskCost(hooks, p, top)
  {
    hide StackCost, MutationCost, Matching, ActionsCost, Enter;
    if top.todo != [] {
      var rest := top.(todo := top.todo[1..]);
      FirstHook(hooks, p, top.todo, Left(top.f));
      StackSnoc(hooks, p, stack, rest);
      match Begin(top.f, top.todo[0].id)
      case Entered(child) => EnterPays(hooks, p, stack + [rest], top.f, child, top.todo[0], top.m, answer);
      case _ =>
    }
  }

  /** A step of a busy thread that queues nothing. */
  lemma SteppedPays(hooks: seq<Hook>, p: Prices, stack: seq<Task>, top: Task, answer: Answer)
    ensures StackCost(hooks, p, Stepped(hooks, stack, top, answer)) + p.step
            + (if top.Mutate? then p.attempt else 0)
            <= StackCost(hooks, p, stack) + TaskCost(hooks, p, top)
  {
    match top
    case Mutate(f, m) =>
      hide StackCost, HooksCost, Matching;
      MatchingCost(hooks, p, hooks, m, Left(f));
      StackSnoc(hooks, p, stack, BeforeHooks(f, m, Matching(hooks, Before, m)));
      ReturnIsFree(hooks, p, stack, false);
    case BeforeHooks(_, _, _) => BeforePays(hooks, p, stack, top, answer);
    case AfterHooks(_, _, _) => AfterPays(hooks, p, stack, top, answer);
    case Actions(_, _, _, acts) =>
      hide StackCost, MutationCost;
      if acts != [] { ActionPays(hooks, p, stack, top, answer); }
  }

  lemma {:induction false} ThreadsUpdate(hooks: seq<Hook>, p: Prices, ts: seq<seq<Task>>, t: nat, next: seq<Task>)
    requires t < |ts|
    ensures ThreadsCost(hooks, p, ts[t := next]) + StackCost(hooks, p, ts[t])
            == ThreadsCost(hooks, p, ts) + StackCost(hooks, p, next)
  {
    hide StackCost;
    if t > 0 {
      ThreadsUpdate(hooks, p, ts[1..], t - 1, next);
      assert ts[t := next][1..] == ts[1..][t - 1 := next];
    } else {
      assert ts[t := next][1..] == ts[1..];
    }
  }

  lemma {:induction false} QueueSnoc(hooks: seq<Hook>, p: Prices, q: seq<Job>, j: Job)
    ensures QueueCost(hooks, p, q + [j]) == QueueCost(hooks, p, q) + JobCost(hooks, p, j)
  {
    hide JobCost;
    if q != [] {
      QueueSnoc(hooks, p, q[1..], j);
      assert (q + [j])[1..] == q[1..] + [j];
    } else {
      assert q + [j] == [j] && [j][1..] == [];
    }
  }

  /** Whichever thread moves and whatever the store answers: what is spent and owed
      together never grows, and every step is paid for. */
  lemma StepPays(hooks: seq<Hook>, p: Prices, s: State, t: nat, answer: Answer)
    requires CanMove(s, t)
    ensures Account(hooks, p, Moved(hooks, s, t, answer)) + p.step <= Account(hooks, p, s)
  {
    hide StackCost, TaskCost, JobCost, ThreadsCost, Stepped, Enter, AtEnqueue;
    var s2 := Moved(hooks, s, t, answer);
    ThreadsUpdate(hooks, p, s.threads, t, s2.threads[t]);
    if s.threads[t] == [] {
      TakePays(hooks, p, s, t, answer);
    } else if AtEnqueue(s.threads[t]) {
      EnqueuePays(hooks, p, s, t, answer);
      Grow(p.job, s.queued);
    } else {
      var stack, top := Front(s.threads[t]), s.threads[t][|s.threads[t]| - 1];
      assert s.threads[t] == stack + [top];
      StackSnoc(hooks, p, stack, top);
      SteppedPays(hooks, p, stack, top, answer);
      Grow(p.attempt, s.attempts);
    }
  }

  lemma Grow(c: nat, n: nat)
    ensures c * (n + 1) == c * n + c
  {
  }

  lemma TakePays(hooks: seq<Hook>, p: Prices, s: State, t: nat, answer: Answer)
    requires CanMove(s, t) && s.threads[t] == []
    ensures var s2 := Moved(hooks, s, t, answer);
            StackCost(hooks, p, s2.threads[t]) + QueueCost(hooks, p, s2.queue) + p.step
            <= StackCost(hooks, p, s.threads[t]) + QueueCost(hooks, p, s.queue)
  {
    hide ActionsCost, Enter;
    var j := s.queue[0];
    match Begin(j.frame, j.hook.id)
    case Entered(child) => EnterPays(hooks, p, [], j.frame, child, j.hook, j.m, answer);
    case _ =>
  }

  lemma EnqueuePays(hooks: seq<Hook>, p: Prices, s: State, t: nat, answer: Answer)
    requires CanMove(s, t) && s.threads[t] != [] && AtEnqueue(s.threads[t])
    ensures var s2 := Moved(hooks, s, t, answer);
            StackCost(hooks, p, s2.threads[t]) + QueueCost(hooks, p, s2.queue) + p.step + p.job
            <= StackCost(hooks, p, s.threads[t]) + QueueCost(hooks, p, s.queue)
  {
    hide StackCost, ActionsCost, QueueCost;
    var stack, top := Front(s.threads[t]), s.threads[t][|s.threads[t]| - 1];
    assert s.threads[t] == stack + [top];
    FirstHook(hooks, p, top.todo, Left(top.f));
    StackSnoc(hooks, p, stack, top);
    StackSnoc(hooks, p, stack, top.(todo := top.todo[1..]));
    QueueSnoc(hooks, p, s.queue, Job(top.f, top.todo[0], top.m));
  }

  // ---------------------------------------------------------------- every schedule

  datatype Move = Move(t: nat, answer: Answer)

  predicate IsSchedule(hooks: seq<Hook>, ss: seq<State>, moves: seq<Move>)
  {
    && |ss| == |moves| + 1
    && forall i | 0 <= i < |moves| ::
         CanMove(ss[i], moves[i].t) && ss[i + 1] == Moved(hooks, ss[i], moves[i].t, moves[i].answer)
  }

  lemma {:induction false} SchedulePays(hooks: seq<Hook>, p: Prices, ss: seq<State>, moves: seq<Move>, i: nat)
    requires IsSchedule(hooks, ss, moves) && i <= |moves|
    ensures Account(hooks, p, ss[i]) + p.step * i <= Account(hooks, p, ss[0])
  {
    hide Account, CanMove, Moved;
    if i > 0 {
      SchedulePays(hooks, p, ss, moves, i - 1);
      StepPays(hooks, p, ss[i - 1], moves[i - 1].t, moves[i - 1].answer);
      Grow(p.step, i - 1);
    }
  }

  /** Nothing has happened yet; each user thread has one mutation to make after
      another, and the worker is idle. */
  predicate IsStart(s: State)
  {
    && |s.threads| > 0 && s.threads[0] == [] && s.queue == [] && s.attempts == 0 && s.queued == 0
    && forall t, i | 0 <= t < |s.threads| && 0 <= i < |s.threads[t]| :: IsRequest(s.threads[t][i])
  }

  predicate IsRequest(t: Task) { t.Mutate? && t.f == Root }

  function Requests(ts: seq<seq<Task>>): nat
  {
    if ts == [] then 0 else |ts[0]| + Requests(ts[1..])
  }

  lemma {:induction false} RequestsCost(hooks: seq<Hook>, p: Prices, stack: seq<Task>)
    requires forall i | 0 <= i < |stack| :: IsRequest(stack[i])
    ensures StackCost(hooks, p, stack) == |stack| * MutationCost(hooks, p, MAX_HOOK_DEPTH)
  {
    hide MutationCost;
    if stack != [] {
      RequestsCost(hooks, p, stack[..|stack| - 1]);
      assert IsRequest(stack[|stack| - 1]);
      OneLess(|stack|, MutationCost(hooks, p, MAX_HOOK_DEPTH));
    }
  }

  lemma {:induction false} ThreadsRequests(hooks: seq<Hook>, p: Prices, ts: seq<seq<Task>>)
    requires forall t, i | 0 <= t < |ts| && 0 <= i < |ts[t]| :: IsRequest(ts[t][i])
    ensures ThreadsCost(hooks, p, ts) == Requests(ts) * MutationCost(hooks, p, MAX_HOOK_DEPTH)
  {
    hide MutationCost, StackCost, IsRequest;
    if ts != [] {
      assert forall t, i | 0 <= t < |ts[1..]| && 0 <= i < |ts[1..][t]| :: IsRequest(ts[1..][t][i]) by {
        forall t, i | 0 <= t < |ts[1..]| && 0 <= i < |ts[1..][t]|
          ensures IsRequest(ts[1..][t][i])
        {
          assert ts[1..][t] == ts[t + 1];
        }
      }
      ThreadsRequests(hooks, p, ts[1..]);
      RequestsCost(hooks, p, ts[0]);
      Spread(|ts[0]|, Requests(ts[1..]), MutationCost(hooks, p, MAX_HOOK_DEPTH));
    }
  }

  lemma Spread(a: nat, b: nat, c: nat)
    ensures (a + b) * c == a * c + b * c
  {
  }

  /** How many actions all hooks together list. */
  function ActionCount(hooks: seq<Hook>): nat
  {
    if hooks == [] then 0 else |hooks[0].actions| + ActionCount(hooks[1..])
  }

  /** 1 + a + a^2 + ... + a^n */
  function Geometric(a: nat, n: nat): nat { if n == 0 then 1 else 1 + a * Geometric(a, n - 1) }

  lemma {:induction false} CountedActions(hooks: seq<Hook>, hs: seq<Hook>, n: nat)
    requires n > 0
    ensures HooksCost(hooks, Prices(1, 0, 0), hs, n) == ActionCount(hs) * MutationCost(hooks, Prices(1, 0, 0), n - 1)
  {
    hide MutationCost;
    if hs != [] {
      FirstHook(hooks, Prices(1, 0, 0), hs, n);
      CountedActions(hooks, hs[1..], n);
      Spread(|hs[0].actions|, ActionCount(hs[1..]), MutationCost(hooks, Prices(1, 0, 0), n - 1));
    }
  }

  lemma {:induction false} NoneAtTheBottom(hooks: seq<Hook>, hs: seq<Hook>)
    ensures HooksCost(hooks, Prices(1, 0, 0), hs, 0) == 0
  {
    if hs != [] { NoneAtTheBottom(hooks, hs[1..]); }
  }

  lemma {:induction false} AttemptsAreGeometric(hooks: seq<Hook>, n: nat)
    ensures MutationCost(hooks, Prices(1, 0, 0), n) == Geometric(ActionCount(hooks), n)
  {
    if n > 0 {
      AttemptsAreGeometric(hooks, n - 1);
      CountedActions(hooks, hooks, n);
    } else {
      NoneAtTheBottom(hooks, hooks);
    }
  }

  /** Every schedule ends, and on the way to any of its states at most the stated
      number of mutations is attempted: for each request 1 + a + a^2 + ... + a^8,
      where a is the number of actions of all registered hooks. */
  lemma ScheduleBounded(hooks: seq<Hook>, ss: seq<State>, moves: seq<Move>)
    requires IsSchedule(hooks, ss, moves) && IsStart(ss[0])
    ensures ss[|moves|].attempts <= Requests(ss[0].threads) * Geometric(ActionCount(hooks), MAX_HOOK_DEPTH)
    ensures |moves| <= Requests(ss[0].threads) * MutationCost(hooks, Prices(0, 0, 1), MAX_HOOK_DEPTH)
  {
    hide CanMove, Moved, MutationCost, ThreadsCost, QueueCost, Requests, Geometric, IsRequest;
    SchedulePays(hooks, Prices(1, 0, 0), ss, moves, |moves|);
    SchedulePays(hooks, Prices(0, 0, 1), ss, moves, |moves|);
    ThreadsRequests(hooks, Prices(1, 0, 0), ss[0].threads);
    ThreadsRequests(hooks, Prices(0, 0, 1), ss[0].threads);
    EmptyQueue(hooks, Prices(1, 0, 0));
    EmptyQueue(hooks, Prices(0, 0, 1));
    AttemptsAreGeometric(hooks, MAX_HOOK_DEPTH);
  }

  lemma EmptyQueue(hooks: seq<Hook>, p: Prices)
    ensures QueueCost(hooks, p, []) == 0
  {
  }

  // ---------------------------------------------------------------- getting stuck

  predicate Finished(s: State) { s.queue == [] && forall t | 0 <= t < |s.threads| :: s.threads[t] == [] }

  /** The queue is full, the worker itself waits to put a job into it, and so does
      every user thread that is not done: nobody is left to take a job out. */
  predicate Deadlocked(s: State)
  {
    && |s.threads| > 0 && AtEnqueue(s.threads[0]) && |s.queue| >= HOOK_QUEUE_SIZE
    && forall t | 0 <= t < |s.threads| :: s.threads[t] == [] || AtEnqueue(s.threads[t])
  }

  /** A schedule that cannot go on is done, or deadlocked in just this way. */
  lemma StuckExact(s: State)
    requires |s.threads| > 0
    ensures (forall t: nat :: !CanMove(s, t)) <==> Finished(s) || Deadlocked(s)
  {
    hide AtEnqueue;
    if forall t: nat :: !CanMove(s, t) {
      assert !CanMove(s, 0);
      if s.threads[0] == [] {
        forall t | 0 <= t < |s.threads|
          ensures s.threads[t] == []
        {
          assert !CanMove(s, t);
        }
      } else {
        forall t | 0 <= t < |s.threads|
          ensures s.threads[t] == [] || AtEnqueue(s.threads[t])
        {
          assert !CanMove(s, t);
        }
      }
    }
    if Finished(s) || Deadlocked(s) {
      forall t: nat
        ensures !CanMove(s, t)
      {
        if t < |s.threads| { assert s.threads[t] == [] || AtEnqueue(s.threads[t]); }
        NotEmptyHanded(s);
      }
    }
  }

  lemma NotEmptyHanded(s: State)
    requires |s.threads| > 0
    ensures AtEnqueue(s.threads[0]) ==> s.threads[0] != []
  {
  }

  lemma {:induction false} QueuedSoFar(hooks: seq<Hook>, ss: seq<State>, moves: seq<Move>, i: nat)
    requires IsSchedule(hooks, ss, moves) && IsStart(ss[0]) && i <= |moves|
    ensures |ss[i].queue| <= ss[i].queued && |ss[i].threads| == |ss[0].threads|
  {
    hide AtEnqueue, Stepped, Enter;
    if i > 0 { QueuedSoFar(hooks, ss, moves, i - 1); }
  }

  lemma {:induction false} ThreadOwes(hooks: seq<Hook>, p: Prices, ts: seq<seq<Task>>, t: nat)
    requires t < |ts|
    ensures StackCost(hooks, p, ts[t]) <= ThreadsCost(hooks, p, ts)
  {
    hide StackCost;
    if t > 0 { ThreadOwes(hooks, p, ts[1..], t - 1); }
  }

  lemma EnqueueOwes(hooks: seq<Hook>, stack: seq<Task>)
    requires AtEnqueue(stack)
    ensures StackCost(hooks, Prices(0, 1, 0), stack) >= 1
  {
    var top := stack[|stack| - 1];
    assert HookCost(hooks, Prices(0, 1, 0), top.todo[0], Left(top.f)) >= 1;
  }

  /** When all the jobs that could ever be queued fit into the queue, no schedule
      deadlocks, so each one runs until everything is done. */
  lemma NeverDeadlocked(hooks: seq<Hook>, ss: seq<State>, moves: seq<Move>)
    requires IsSchedule(hooks, ss, moves) && IsStart(ss[0])
    requires Requests(ss[0].threads) * MutationCost(hooks, Prices(0, 1, 0), MAX_HOOK_DEPTH) <= HOOK_QUEUE_SIZE
    ensures !Deadlocked(ss[|moves|])
  {
    hide CanMove, Moved, MutationCost, ThreadsCost, QueueCost, Requests, IsRequest, StackCost, AtEnqueue;
    var p, end := Prices(0, 1, 0), ss[|moves|];
    SchedulePays(hooks, p, ss, moves, |moves|);
    ThreadsRequests(hooks, p, ss[0].threads);
    EmptyQueue(hooks, p);
    QueuedSoFar(hooks, ss, moves, |moves|);
    if Deadlocked(end) {
      EnqueueOwes(hooks, end.threads[0]);
      ThreadOwes(hooks, p, end.threads, 0);
      assert false;
    }
  }

  // ---------------------------------------------------------------- a schedule that deadlocks

  /** Some schedule leads from one state to the other. */
  ghost predicate Reaches(hooks: seq<Hook>, a: State, b: State)
  {
    exists ss, moves :: IsSchedule(hooks, ss, moves) && ss[0] == a && ss[|moves|] == b
  }

  lemma ReachesSelf(hooks: seq<Hook>, a: State)
    ensures Reaches(hooks, a, a)
  {
    assert IsSchedule(hooks, [a], []) && [a][0] == a;
  }

  lemma ReachesOn(hooks: seq<Hook>, a: State, b: State, t: nat)
    requires Reaches(hooks, a, b) && CanMove(b, t)
    ensures Reaches(hooks, a, Moved(hooks, b, t, Yes))
  {
    hide CanMove, Moved;
    var ss, moves :| IsSchedule(hooks, ss, moves) && ss[0] == a && ss[|moves|] == b;
    var next := Moved(hooks, b, t, Yes);
    var qs, more := ss + [next], moves + [Move(t, Yes)];
    forall i | 0 <= i < |more|
      ensures CanMove(qs[i], more[i].t) && qs[i + 1] == Moved(hooks, qs[i], more[i].t, more[i].answer)
    {
      if i < |moves| { assert qs[i] == ss[i] && qs[i + 1] == ss[i + 1] && more[i] == moves[i]; }
    }
    assert IsSchedule(hooks, qs, more) && qs[0] == a && qs[|more|] == next;
  }

  const A: Bytes := [97]
  const B: Bytes := [98]

  /** Inserting into A queues an insert into B, which queues something in turn. */
  const CHAIN: seq<Hook> := [Hook(1, After, Insert, A, true, [Mutates(Mutation(Insert, B))]),
                             Hook(2, After, Insert, B, true, [SetFields])]

  function Inserts(n: nat): seq<Task> { seq(n, i => Mutate(Root, Mutation(Insert, A))) }

  function Waiting(n: nat): seq<Job> { seq(n, i => Job(Root, CHAIN[0], Mutation(Insert, A))) }

  lemma ChainMatches()
    ensures Matching(CHAIN, Before, Mutation(Insert, A)) == [] == Matching(CHAIN, Before, Mutation(Insert, B))
    ensures Matching(CHAIN, After, Mutation(Insert, A)) == [CHAIN[0]]
    ensures Matching(CHAIN, After, Mutation(Insert, B)) == [CHAIN[1]]
  {
    MatchingTwo(CHAIN[0], CHAIN[1], Before, Mutation(Insert, A));
    MatchingTwo(CHAIN[0], CHAIN[1], Before, Mutation(Insert, B));
    MatchingTwo(CHAIN[0], CHAIN[1], After, Mutation(Insert, A));
    MatchingTwo(CHAIN[0], CHAIN[1], After, Mutation(Insert, B));
  }

  lemma MatchingTwo(a: Hook, b: Hook, when: When, m: Mutation)
    ensures Matching([a, b], when, m)
            == (if Matches(a, when, m) then [a] else []) + (if Matches(b, when, m) then [b] else [])
  {
    assert [a, b][1..] == [b] && [b][1..] == [];
    assert Matching([b][1..], when, m) == [];
    assert Matching([b], when, m) == if Matches(b, when, m) then [b] else [];
  }

  function Filling(worker: seq<Task>, left: nat, waiting: nat, attempts: nat, queued: nat): State
  {
    State([worker, Inserts(left)], Waiting(waiting), attempts, queued)
  }

  /** The user thread inserts once more into A, and one more job waits. */
  lemma FillOne(start: State, worker: seq<Task>, left: nat, waiting: nat, attempts: nat, queued: nat)
    requires waiting < HOOK_QUEUE_SIZE && Reaches(CHAIN, start, Filling(worker, left + 1, waiting, attempts, queued))
    ensures Reaches(CHAIN, start, Filling(worker, left, waiting + 1, attempts + 1, queued + 1))
  {
    hide Reaches;
    var stack := Inserts(left) + [AfterHooks(Root, Mutation(Insert, A), [CHAIN[0]])];
    InsertOne(start, worker, left, waiting, attempts, queued);
    var s2 := State([worker, stack], Waiting(waiting), attempts + 1, queued);
    ReachesOn(CHAIN, start, s2, 1);
    var s3 := State([worker, Inserts(left) + [AfterHooks(Root, Mutation(Insert, A), [])]], Waiting(waiting + 1),
                    attempts + 1, queued + 1);
    assert Front(stack) == Inserts(left) && [CHAIN[0]][1..] == [];
    assert Waiting(waiting) + [Job(Root, CHAIN[0], Mutation(Insert, A))] == Waiting(waiting + 1);
    assert Moved(CHAIN, s2, 1, Yes) == s3;
    ReachesOn(CHAIN, start, s3, 1);
    assert Front(s3.threads[1]) == Inserts(left);
    assert Moved(CHAIN, s3, 1, Yes) == Filling(worker, left, waiting + 1, attempts + 1, queued + 1);
  }

  lemma InsertOne(start: State, worker: seq<Task>, left: nat, waiting: nat, attempts: nat, queued: nat)
    requires Reaches(CHAIN, start, Filling(worker, left + 1, waiting, attempts, queued))
    ensures var stack := Inserts(left) + [AfterHooks(Root, Mutation(Insert, A), [CHAIN[0]])];
            Reaches(CHAIN, start, State([worker, stack], Waiting(waiting), attempts + 1, queued))
  {
    hide Reaches, Matching;
    ChainMatches();
    var m := Mutation(Insert, A);
    var s := Filling(worker, left + 1, waiting, attempts, queued);
    assert Front(Inserts(left + 1)) == Inserts(left);
    ReachesOn(CHAIN, start, s, 1);
    var s1 := State([worker, Inserts(left) + [BeforeHooks(Root, m, [])]], Waiting(waiting), attempts + 1, queued);
    assert Moved(CHAIN, s, 1, Yes) == s1;
    ReachesOn(CHAIN, start, s1, 1);
    assert Front(s1.threads[1]) == Inserts(left);
    assert Moved(CHAIN, s1, 1, Yes)
        == State([worker, Inserts(left) + [AfterHooks(Root, m, [CHAIN[0]])]], Waiting(waiting), attempts + 1, queued);
  }

  lemma {:induction false} FillUp(start: State, worker: seq<Task>, left: nat, waiting: nat, attempts: nat, queued: nat,
      n: nat)
    requires waiting + n <= HOOK_QUEUE_SIZE
    requires Reaches(CHAIN, start, Filling(worker, left + n, waiting, attempts, queued))
    ensures Reaches(CHAIN, start, Filling(worker, left, waiting + n, attempts + n, queued + n))
    decreases n
  {
    hide Reaches;
    if n > 0 {
      FillOne(start, worker, left + (n - 1), waiting, attempts, queued);
      FillUp(start, worker, left, waiting + 1, attempts + 1, queued + 1, n - 1);
    }
  }

  /** One user thread inserts 1025 documents while the worker is in the middle of its
      first job: the queue is full when that job wants to queue another one. The
      worker waits for itself, for ever. */
  lemma QueueDeadlocks() returns (ss: seq<State>, moves: seq<Move>)
    ensures IsSchedule(CHAIN, ss, moves) && IsStart(ss[0])
    ensures ss[0] == State([[], Inserts(HOOK_QUEUE_SIZE + 1)], [], 0, 0) && Deadlocked(ss[|moves|])
  {
    var start := Filling([], HOOK_QUEUE_SIZE + 1, 0, 0, 0);
    ReachesSelf(CHAIN, start);
    hide Reaches, Matching;
    FillUp(start, [], 1, 0, 0, 0, HOOK_QUEUE_SIZE);
    var full := Filling([], 1, HOOK_QUEUE_SIZE, HOOK_QUEUE_SIZE, HOOK_QUEUE_SIZE);
    var child := Nested(Root, 1, 1);
    var job := [Actions(child, After, Mutation(Insert, A), [Mutates(Mutation(Insert, B))])];
    TakeFirst(start, job);
    FillOne(start, job, 0, HOOK_QUEUE_SIZE - 1, HOOK_QUEUE_SIZE, HOOK_QUEUE_SIZE);
    var end := WorkerWaits(start, job);
    ss, moves := ScheduleOf(CHAIN, start, end);
  }

  lemma ScheduleOf(hooks: seq<Hook>, a: State, b: State) returns (ss: seq<State>, moves: seq<Move>)
    requires Reaches(hooks, a, b)
    ensures IsSchedule(hooks, ss, moves) && ss[0] == a && ss[|moves|] == b
  {
    ss, moves :| IsSchedule(hooks, ss, moves) && ss[0] == a && ss[|moves|] == b;
  }

  lemma TakeFirst(start: State, job: seq<Task>)
    requires job == [Actions(Nested(Root, 1, 1), After, Mutation(Insert, A), [Mutates(Mutation(Insert, B))])]
    requires Reaches(CHAIN, start, Filling([], 1, HOOK_QUEUE_SIZE, HOOK_QUEUE_SIZE, HOOK_QUEUE_SIZE))
    ensures Reaches(CHAIN, start, Filling(job, 1, HOOK_QUEUE_SIZE - 1, HOOK_QUEUE_SIZE, HOOK_QUEUE_SIZE))
  {
    hide Reaches;
    var full := Filling([], 1, HOOK_QUEUE_SIZE, HOOK_QUEUE_SIZE, HOOK_QUEUE_SIZE);
    ReachesOn(CHAIN, start, full, 0);
    assert Waiting(HOOK_QUEUE_SIZE)[1..] == Waiting(HOOK_QUEUE_SIZE - 1);
    assert [] + job == job;
    assert Moved(CHAIN, full, 0, Yes) == Filling(job, 1, HOOK_QUEUE_SIZE - 1, HOOK_QUEUE_SIZE, HOOK_QUEUE_SIZE);
  }

  lemma WorkerWaits(start: State, job: seq<Task>) returns (end: State)
    requires job == [Actions(Nested(Root, 1, 1), After, Mutation(Insert, A), [Mutates(Mutation(Insert, B))])]
    requires Reaches(CHAIN, start, Filling(job, 0, HOOK_QUEUE_SIZE, HOOK_QUEUE_SIZE + 1, HOOK_QUEUE_SIZE + 1))
    ensures Reaches(CHAIN, start, end) && Deadlocked(end)
  {
    hide Reaches, Matching;
    ChainMatches();
    var n, child, m := HOOK_QUEUE_SIZE, Nested(Root, 1, 1), Mutation(Insert, B);
    var done := Actions(child, After, Mutation(Insert, A), []);
    var s := Filling(job, 0, n, n + 1, n + 1);
    ReachesOn(CHAIN, start, s, 0);
    var s1 := State([[done, Mutate(child, m)], []], Waiting(n), n + 1, n + 1);
    assert Front(job) == [] && [Mutates(m)][1..] == [] && Inserts(0) == [];
    assert [] + [done] + [Mutate(child, m)] == [done, Mutate(child, m)];
    assert Moved(CHAIN, s, 0, Yes) == s1;
    ReachesOn(CHAIN, start, s1, 0);
    var s2 := State([[done, BeforeHooks(child, m, [])], []], Waiting(n), n + 2, n + 1);
    assert Front(s1.threads[0]) == [done] && [done] + [BeforeHooks(child, m, [])] == [done, BeforeHooks(child, m, [])];
    assert Moved(CHAIN, s1, 0, Yes) == s2;
    ReachesOn(CHAIN, start, s2, 0);
    end := State([[done, AfterHooks(child, m, [CHAIN[1]])], []], Waiting(n), n + 2, n + 1);
    assert Front(s2.threads[0]) == [done];
    assert [done] + [AfterHooks(child, m, [CHAIN[1]])] == [done, AfterHooks(child, m, [CHAIN[1]])];
    assert Moved(CHAIN, s2, 0, Yes) == end;
  }
}
