/** Every frame a cascade ever holds, on a thread or in the queue, is a chain of
    pairwise distinct registered hooks, at most eight long. */
module HookChains {
  import opened ByteCodec
  import opened Hooks
  import opened HookSchedules

  function RegisteredIds(hooks: seq<Hook>): set<nat> { set i | 0 <= i < |hooks| :: hooks[i].id }

  predicate SoundFrame(hooks: seq<Hook>, f: Frame) { FrameOk(f) && Ids(f) <= RegisteredIds(hooks) }

  predicate AllRegistered(hooks: seq<Hook>, todo: seq<Hook>) { forall i | 0 <= i < |todo| :: todo[i] in hooks }

  predicate SoundTask(hooks: seq<Hook>, t: Task)
  {
    SoundFrame(hooks, t.f) && (t.BeforeHooks? || t.AfterHooks? ==> AllRegistered(hooks, t.todo))
  }

  predicate SoundStack(hooks: seq<Hook>, stack: seq<Task>)
  {
    forall i | 0 <= i < |stack| :: SoundTask(hooks, stack[i])
  }

  predicate SoundJob(hooks: seq<Hook>, j: Job) { SoundFrame(hooks, j.frame) && j.hook in hooks }

  predicate SoundState(hooks: seq<Hook>, s: State)
  {
    && (forall t | 0 <= t < |s.threads| :: SoundStack(hooks, s.threads[t]))
    && forall i | 0 <= i < |s.queue| :: SoundJob(hooks, s.queue[i])
  }

  lemma {:induction false} MatchingRegistered(hooks: seq<Hook>, when: When, m: Mutation)
    ensures AllRegistered(hooks, Matching(hooks, when, m))
  {
    hide Matches;
    if hooks != [] {
      MatchingRegistered(hooks[1..], when, m);
      var rest := Matching(hooks[1..], when, m);
      assert forall i | 0 <= i < |rest| :: rest[i] in hooks[1..];
    }
  }

  lemma EnteredSound(hooks: seq<Hook>, f: Frame, h: Hook, child: Frame)
    requires SoundFrame(hooks, f) && h in hooks && Begin(f, h.id) == Entered(child)
    ensures SoundFrame(hooks, child)
  {
    EnteredOk(f, h.id);
  }

  lemma {:induction false} ReturnSound(hooks: seq<Hook>, stack: seq<Task>, ok: bool)
    requires SoundStack(hooks, stack)
    ensures SoundStack(hooks, Return(stack, ok))
    decreases |stack|
  {
    hide SoundTask;
    if !ok && stack != [] { ReturnSound(hooks, stack[..|stack| - 1], ok); }
  }

  lemma PushSound(hooks: seq<Hook>, stack: seq<Task>, t: Task)
    requires SoundStack(hooks, stack) && SoundTask(hooks, t)
    ensures SoundStack(hooks, stack + [t])
  {
    hide SoundTask;
  }

  lemma EnterSound(hooks: seq<Hook>, stack: seq<Task>, f: Frame, child: Frame, h: Hook, m: Mutation, answer: Answer)
    requires SoundStack(hooks, stack) && SoundFrame(hooks, f) && h in hooks && Begin(f, h.id) == Entered(child)
    ensures SoundStack(hooks, Enter(stack, child, h, m, answer))
  {
    hide SoundFrame, SoundStack, Begin, Return;
    EnteredSound(hooks, f, h, child);
    ReturnSound(hooks, stack, false);
    PushSound(hooks, stack, Actions(child, h.when, m, h.actions));
  }

  lemma ActionSound(hooks: seq<Hook>, stack: seq<Task>, t: Task, answer: Answer)
    requires SoundStack(hooks, stack) && SoundTask(hooks, t) && t.Actions? && t.acts != []
    ensures SoundStack(hooks, DoAction(stack, t, answer))
  {
    hide SoundFrame, SoundStack, Return;
    var rest := t.(acts := t.acts[1..]);
    PushSound(hooks, stack, rest);
    PushSound(hooks, stack + [rest], Mutate(t.f, Mutation(Update, t.m.coll)));
    if t.acts[0].Mutates? { PushSound(hooks, stack + [rest], Mutate(t.f, t.acts[0].m)); }
    ReturnSound(hooks, stack, false);
  }

  lemma HookSound(hooks: seq<Hook>, stack: seq<Task>, top: Task, answer: Answer)
    requires SoundStack(hooks, stack) && SoundTask(hooks, top)
    requires (top.BeforeHooks? || top.AfterHooks?) && top.todo != []
    ensures SoundStack(hooks, Stepped(hooks, stack, top, answer))
  {
    hide SoundFrame, SoundStack, Begin, Return, Enter;
    var rest := top.(todo := top.todo[1..]);
    assert top.todo[0] in hooks;
    PushSound(hooks, stack, rest);
    ReturnSound(hooks, stack, false);
    match Begin(top.f, top.todo[0].id)
    case Entered(child) => EnterSound(hooks, stack + [rest], top.f, child, top.todo[0], top.m, answer);
    case _ =>
  }

  lemma SteppedSound(hooks: seq<Hook>, stack: seq<Task>, top: Task, answer: Answer)
    requires SoundStack(hooks, stack) && SoundTask(hooks, top)
    ensures SoundStack(hooks, Stepped(hooks, stack, top, answer))
  {
    hide SoundFrame, SoundStack, Begin, Return, Enter, DoAction, Matching, AllRegistered;
    MatchingRegistered(hooks, Before, top.m);
    MatchingRegistered(hooks, After, top.m);
    ReturnSound(hooks, stack, false);
    ReturnSound(hooks, stack, true);
    if (top.BeforeHooks? || top.AfterHooks?) && top.todo != [] {
      HookSound(hooks, stack, top, answer);
    } else if top.Mutate? {
      PushSound(hooks, stack, BeforeHooks(top.f, top.m, Matching(hooks, Before, top.m)));
    } else if top.BeforeHooks? {
      PushSound(hooks, stack, AfterHooks(top.f, top.m, Matching(hooks, After, top.m)));
    } else if top.Actions? && top.acts != [] {
      ActionSound(hooks, stack, top, answer);
    }
  }

  /** Whichever thread moves, every chain stays sound: also those that wait in the
      queue and are taken up by the worker later. */
  lemma MovedSound(hooks: seq<Hook>, s: State, t: nat, answer: Answer)
    requires SoundState(hooks, s) && CanMove(s, t)
    ensures SoundState(hooks, Moved(hooks, s, t, answer))
  {
    hide SoundFrame, Begin, Return, Enter, Stepped, SoundTask;
    var stack := s.threads[t];
    if stack == [] {
      var j := s.queue[0];
      assert SoundJob(hooks, j);
      match Begin(j.frame, j.hook.id)
      case Entered(child) => EnterSound(hooks, [], j.frame, child, j.hook, j.m, answer);
      case _ =>
    } else {
      var front, top := Front(stack), stack[|stack| - 1];
      assert SoundStack(hooks, stack);
      assert SoundTask(hooks, top);
      assert SoundStack(hooks, front);
      if AtEnqueue(stack) {
        QueuedSound(hooks, front, top);
      } else {
        SteppedSound(hooks, front, top, answer);
      }
    }
  }

  lemma QueuedSound(hooks: seq<Hook>, front: seq<Task>, top: Task)
    requires SoundStack(hooks, front) && SoundTask(hooks, top) && top.AfterHooks? && top.todo != []
    ensures SoundStack(hooks, front + [top.(todo := top.todo[1..])])
    ensures SoundJob(hooks, Job(top.f, top.todo[0], top.m))
  {
    hide SoundFrame, SoundStack;
    assert top.todo[0] in hooks;
    PushSound(hooks, front, top.(todo := top.todo[1..]));
  }

  lemma {:induction false} ChainsStaySound(hooks: seq<Hook>, ss: seq<State>, moves: seq<Move>, i: nat)
    requires IsSchedule(hooks, ss, moves) && IsStart(ss[0]) && i <= |moves|
    ensures SoundState(hooks, ss[i])
  {
    hide CanMove, Moved, SoundState;
    if i == 0 {
      StartSound(hooks, ss[0]);
    } else {
      ChainsStaySound(hooks, ss, moves, i - 1);
      MovedSound(hooks, ss[i - 1], moves[i - 1].t, moves[i - 1].answer);
    }
  }

  lemma StartSound(hooks: seq<Hook>, s: State)
    requires IsStart(s)
    ensures SoundState(hooks, s)
  {
    forall t, i | 0 <= t < |s.threads| && 0 <= i < |s.threads[t]|
      ensures SoundTask(hooks, s.threads[t][i])
    {
      assert IsRequest(s.threads[t][i]);
    }
  }

  /** The frame is in use: on some thread, or with a job in the queue. */
  ghost predicate InUse(s: State, f: Frame)
  {
    || (exists t, i :: 0 <= t < |s.threads| && 0 <= i < |s.threads[t]| && s.threads[t][i].f == f)
    || exists i :: 0 <= i < |s.queue| && s.queue[i].frame == f
  }

  /** The hooks of a chain, innermost first. */
  function Chain(f: Frame): seq<nat> { if f.Root? then [] else [f.hookId] + Chain(f.parent) }

  lemma {:induction false} ChainFacts(f: Frame)
    requires FrameOk(f)
    ensures |Chain(f)| == DepthOf(f) && forall id: nat :: id in Chain(f) <==> id in Ids(f)
    ensures forall i, j | 0 <= i < j < |Chain(f)| :: Chain(f)[i] != Chain(f)[j]
  {
    if f.Nested? {
      ChainFacts(f.parent);
      MentionsIsIds(f.parent, f.hookId);
    }
  }

  /** In every state of every schedule, every chain in use names each hook at most
      once, only registered hooks, and no more of them than eight or than there are. */
  lemma ChainsAreSound(hooks: seq<Hook>, ss: seq<State>, moves: seq<Move>, i: nat, f: Frame)
    requires IsSchedule(hooks, ss, moves) && IsStart(ss[0]) && i <= |moves| && InUse(ss[i], f)
    ensures forall j, k | 0 <= j < k < |Chain(f)| :: Chain(f)[j] != Chain(f)[k]
    ensures forall j | 0 <= j < |Chain(f)| :: Chain(f)[j] in RegisteredIds(hooks)
    ensures |Chain(f)| == DepthOf(f) <= MAX_HOOK_DEPTH && DepthOf(f) <= |RegisteredIds(hooks)|
  {
    ChainsStaySound(hooks, ss, moves, i);
    UsedIsSound(hooks, ss[i], f);
    ChainLength(f, RegisteredIds(hooks));
    ChainFacts(f);
  }

  lemma UsedIsSound(hooks: seq<Hook>, s: State, f: Frame)
    requires SoundState(hooks, s) && InUse(s, f)
    ensures SoundFrame(hooks, f)
  {
    hide SoundFrame;
    if t, i :| 0 <= t < |s.threads| && 0 <= i < |s.threads[t]| && s.threads[t][i].f == f {
      assert SoundStack(hooks, s.threads[t]);
      assert SoundTask(hooks, s.threads[t][i]);
    } else {
      var i :| 0 <= i < |s.queue| && s.queue[i].frame == f;
      assert SoundJob(hooks, s.queue[i]);
    }
  }
}
