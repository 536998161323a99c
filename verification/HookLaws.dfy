/** What a mutation sets off: which hooks, in which order, and what an error or a veto
    takes back. */
module HookLaws {
  import opened ByteCodec
  import opened Hooks
  import opened HookSchedules

  /** A hook can be entered from the root and from seven levels of nesting, not from
      eight, and never from itself. */
  lemma DepthOfEight(parent: Frame, id: nat)
    ensures Begin(parent, id).DepthError? <==> DepthOf(parent) >= 8
    ensures DepthOf(parent) < 8 ==> (Begin(parent, id).CycleError? <==> Mentions(parent, id))
  {
  }

  /** The hooks of a mutation: registered for the same moment and kind, and for its
      collection, for "*" or for none; in the order of registration. */
  lemma MatchingExact(a: seq<Hook>, b: seq<Hook>, when: When, m: Mutation, h: Hook)
    ensures h in Matching(a, when, m) <==>
            h in a && h.when == when && h.kind == m.kind && (h.coll == [] || h.coll == Ascii("*") || h.coll == m.coll)
    ensures Matching(a + b, when, m) == Matching(a, when, m) + Matching(b, when, m)
  {
    hide Matching;
    MatchingMembers(a, when, m, h);
    MatchingJoins(a, b, when, m);
    assert Ascii("*") == STAR;
  }

  lemma {:induction false} MatchingMembers(a: seq<Hook>, when: When, m: Mutation, h: Hook)
    ensures h in Matching(a, when, m) <==> h in a && Matches(h, when, m)
  {
    hide Matches;
    if a != [] {
      MatchingMembers(a[1..], when, m, h);
      assert h in a <==> h == a[0] || h in a[1..];
    }
  }

  lemma {:induction false} MatchingJoins(a: seq<Hook>, b: seq<Hook>, when: When, m: Mutation)
    ensures Matching(a + b, when, m) == Matching(a, when, m) + Matching(b, when, m)
  {
    hide Matches;
    if a == [] {
      assert a + b == b;
    } else {
      MatchingJoins(a[1..], b, when, m);
      assert (a + b)[1..] == a[1..] + b;
    }
  }

  // ---------------------------------------------------------------- errors

  /** An error stops at the innermost after-hooks or at the next mutation of the thread. */
  predicate Stops(t: Task) { t.AfterHooks? || t.Mutate? }

  /** An error takes away every call above the place where it stops, and nothing else;
      a call that ends well takes away nothing. */
  lemma {:induction false} ErrorUnwinds(stack: seq<Task>) returns (k: nat)
    ensures k <= |stack| && Return(stack, false) == stack[..k] && (k > 0 ==> Stops(stack[k - 1]))
    ensures forall i | k <= i < |stack| :: !Stops(stack[i])
    ensures Return(stack, true) == stack
    decreases |stack|
  {
    k := |stack|;
    if stack != [] && !Stops(stack[|stack| - 1]) {
      k := ErrorUnwinds(stack[..|stack| - 1]);
      assert stack[..|stack| - 1][..k] == stack[..k];
      assert forall i | k <= i < |stack| - 1 :: stack[..|stack| - 1][i] == stack[i];
    } else {
      assert stack[..|stack|] == stack;
    }
  }

  /** A veto: a before-hook that fails, or that may not begin, takes its mutation with it.
      No after-hook of the mutation ever runs, and its callers see the error. */
  lemma VetoStops(hooks: seq<Hook>, stack: seq<Task>, f: Frame, m: Mutation, todo: seq<Hook>, answer: Answer)
    requires todo != [] && (answer.Error? || !Begin(f, todo[0].id).Entered?)
    ensures Stepped(hooks, stack, BeforeHooks(f, m, todo), answer) == Return(stack, false)
  {
    hide Begin;
    var t := BeforeHooks(f, m, todo[1..]);
    assert (stack + [t])[..|stack + [t]| - 1] == stack;
  }

  /** A mutation the store refuses, before its hooks or after them, is an error to its
      caller, and nothing of it is left. */
  lemma RefusedMutation(hooks: seq<Hook>, stack: seq<Task>, f: Frame, m: Mutation, answer: Answer)
    requires !answer.Yes?
    ensures Stepped(hooks, stack, Mutate(f, m), answer) == Return(stack, false)
    ensures Stepped(hooks, stack, BeforeHooks(f, m, []), answer) == Return(stack, false)
  {
  }

  /** The same for a failing action of a before-hook; one of an after-hook ends with that
      hook. */
  lemma FailedAction(hooks: seq<Hook>, stack: seq<Task>, f: Frame, m: Mutation, todo: seq<Hook>, t: Task)
    requires t.Actions? && t.acts != [] && t.acts[0].Mutates?
    ensures Stepped(hooks, stack + [BeforeHooks(f, m, todo)], t, Error) == Return(stack, false)
    ensures Stepped(hooks, stack + [AfterHooks(f, m, todo)], t, Error) == stack + [AfterHooks(f, m, todo)]
  {
    var b := stack + [BeforeHooks(f, m, todo)];
    assert b[..|b| - 1] == stack;
  }

  // ---------------------------------------------------------------- what runs, and when

  /** One thread on its own, one answer a step, as long as it queues nothing. */
  function Runs(hooks: seq<Hook>, stack: seq<Task>, answers: seq<Answer>): seq<Task>
    decreases |answers|
  {
    if answers == [] || stack == [] then stack
    else Runs(hooks, Stepped(hooks, stack[..|stack| - 1], stack[|stack| - 1], answers[0]), answers[1..])
  }

  function Nos(n: nat): seq<Answer> { seq(n, _ => No) }

  /** A mutation that is accepted passes all its before-hooks, is applied, and only then
      has its after-hooks ahead of it: one step to begin, one for each before-hook, in
      order, and one for the mutation itself. */
  lemma MutationRuns(hooks: seq<Hook>, stack: seq<Task>, f: Frame, m: Mutation)
    requires forall h <- hooks :: Begin(f, h.id).Entered?
    ensures Runs(hooks, stack + [Mutate(f, m)], [Yes] + Nos(|Matching(hooks, Before, m)|) + [Yes])
            == stack + [AfterHooks(f, m, Matching(hooks, After, m))]
  {
    hide Begin, Matching;
    var todo := Matching(hooks, Before, m);
    AllMatching(hooks, Before, m);
    var all := [Yes] + Nos(|todo|) + [Yes];
    var start := stack + [Mutate(f, m)];
    assert start[..|start| - 1] == stack;
    assert all[1..] == Nos(|todo|) + [Yes];
    PassesHooks(hooks, stack, f, m, todo);
  }

  lemma {:induction false} AllMatching(hooks: seq<Hook>, when: When, m: Mutation)
    ensures forall h <- Matching(hooks, when, m) :: h in hooks
  {
    hide Matches;
    if hooks != [] { AllMatching(hooks[1..], when, m); }
  }

  lemma {:induction false} PassesHooks(hooks: seq<Hook>, stack: seq<Task>, f: Frame, m: Mutation, todo: seq<Hook>)
    requires forall h <- todo :: Begin(f, h.id).Entered?
    ensures Runs(hooks, stack + [BeforeHooks(f, m, todo)], Nos(|todo|) + [Yes])
            == stack + [AfterHooks(f, m, Matching(hooks, After, m))]
  {
    hide Begin, Matching;
    var now := stack + [BeforeHooks(f, m, todo)];
    var answers := Nos(|todo|) + [Yes];
    assert now[..|now| - 1] == stack;
    if todo == [] {
      assert answers[1..] == [];
    } else {
      assert todo[0] in todo;
      assert answers[1..] == Nos(|todo[1..]|) + [Yes];
      PassesHooks(hooks, stack, f, m, todo[1..]);
    }
  }

  /** A hook that is entered has its actions done in a frame of its own, one level down,
      before the next hook. */
  lemma HookEntered(hooks: seq<Hook>, stack: seq<Task>, top: Task)
    requires (top.BeforeHooks? || top.AfterHooks?) && top.todo != []
    requires Begin(top.f, top.todo[0].id).Entered?
    ensures var h := top.todo[0];
            Stepped(hooks, stack, top, Yes)
            == stack + [top.(todo := top.todo[1..])]
                     + [Actions(Nested(top.f, h.id, DepthOf(top.f) + 1), h.when, top.m, h.actions)]
  {
  }

  /** A trigger that sets fields changes the document at hand before the event; after it,
      that takes an update of the same collection, issued in the frame of the hook. Unset
      fields never do. Any other action is a mutation in that frame. */
  lemma ActionsIssue(hooks: seq<Hook>, stack: seq<Task>, t: Task, m: Mutation)
    requires t.Actions? && t.acts != []
    ensures var rest := stack + [t.(acts := t.acts[1..])];
            && (t.acts[0] == SetFields && t.when == Before ==> Stepped(hooks, stack, t, Yes) == rest)
            && (t.acts[0] == SetFields && t.when == After ==>
                  Stepped(hooks, stack, t, Yes) == rest + [Mutate(t.f, Mutation(Update, t.m.coll))])
            && (t.acts[0] == UnsetFields ==> Stepped(hooks, stack, t, Yes) == rest)
            && (t.acts[0] == Mutates(m) ==> Stepped(hooks, stack, t, Yes) == rest + [Mutate(t.f, m)])
  {
  }

  // ---------------------------------------------------------------- the queue

  /** Jobs leave the queue in the order they came: a thread at an asynchronous hook puts
      it last, the idle worker takes the first, and nobody else touches it. */
  lemma QueueInOrder(hooks: seq<Hook>, s: State, t: nat, answer: Answer)
    requires CanMove(s, t)
    ensures var q := Moved(hooks, s, t, answer);
            if s.threads[t] == [] then t == 0 && s.queue == [s.queue[0]] + q.queue
            else if AtEnqueue(s.threads[t]) then
              var top := s.threads[t][|s.threads[t]| - 1];
              q.queue == s.queue + [Job(top.f, top.todo[0], top.m)] && |q.queue| <= 1024
            else q.queue == s.queue
  {
    hide Stepped, Begin, Enter;
  }

  /** The worker runs a job in the frame of the mutation that queued it. */
  lemma WorkerEnters(hooks: seq<Hook>, s: State)
    requires |s.threads| > 0 && s.threads[0] == [] && s.queue != []
    requires Begin(s.queue[0].frame, s.queue[0].hook.id).Entered?
    ensures var j := s.queue[0];
            Moved(hooks, s, 0, Yes).threads[0]
            == [Actions(Nested(j.frame, j.hook.id, DepthOf(j.frame) + 1), j.hook.when, j.m, j.hook.actions)]
  {
  }
}
