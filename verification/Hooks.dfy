/** The frame chain that stops hooks from running in cycles and from nesting too
    deep. */
module Hooks {
  const MAX_HOOK_DEPTH: nat := 8

  datatype Frame = Root | Nested(parent: Frame, hookId: nat, depth: nat)

  function DepthOf(f: Frame): nat { if f.Root? then 0 else f.depth }

  /** How many levels may still nest below a frame. */
  function Left(f: Frame): nat { if DepthOf(f) > MAX_HOOK_DEPTH then 0 else MAX_HOOK_DEPTH - DepthOf(f) }

  predicate Mentions(f: Frame, id: nat)
  {
    f.Nested? && (f.hookId == id || Mentions(f.parent, id))
  }

  datatype Begun = DepthError | CycleError | Entered(frame: Frame)

  function Begin(parent: Frame, id: nat): Begun
  {
    if DepthOf(parent) + 1 > MAX_HOOK_DEPTH then DepthError
    else if Mentions(parent, id) then CycleError
    else Entered(Nested(parent, id, DepthOf(parent) + 1))
  }

  /** The program's walk up the chain. */
  method BeginHook(parent: Frame, id: nat) returns (b: Begun)
    ensures b == Begin(parent, id)
  {
    var depth := DepthOf(parent) + 1;
    if depth > MAX_HOOK_DEPTH {
      return DepthError;
    }
    var f := parent;
    while f.Nested?
      invariant Mentions(parent, id) == Mentions(f, id)
      decreases f
    {
      if f.hookId == id {
        return CycleError;
      }
      f := f.parent;
    }
    return Entered(Nested(parent, id, depth));
  }

  function Ids(f: Frame): set<nat> { if f.Root? then {} else Ids(f.parent) + {f.hookId} }

  /** A chain of pairwise distinct hooks whose recorded depth is its real length. */
  predicate FrameOk(f: Frame)
  {
    f.Nested? ==>
      && FrameOk(f.parent) && !Mentions(f.parent, f.hookId)
      && f.depth == DepthOf(f.parent) + 1 <= MAX_HOOK_DEPTH
  }

  lemma {:induction false} MentionsIsIds(f: Frame, id: nat)
    ensures Mentions(f, id) <==> id in Ids(f)
  {
    if f.Nested? { MentionsIsIds(f.parent, id); }
  }

  /** Distinctness in numbers: a chain is as long as its set of ids is large, so it
      never exceeds the eight levels nor the number of registered hooks. */
  lemma {:induction false} ChainLength(f: Frame, registered: set<nat>)
    requires FrameOk(f) && Ids(f) <= registered
    ensures DepthOf(f) == |Ids(f)| && DepthOf(f) <= MAX_HOOK_DEPTH && DepthOf(f) <= |registered|
  {
    if f.Nested? {
      ChainLength(f.parent, registered);
      MentionsIsIds(f.parent, f.hookId);
    }
    SubsetSize(Ids(f), registered);
  }

  lemma {:induction false} SubsetSize(a: set<nat>, b: set<nat>)
    requires a <= b
    ensures |a| <= |b|
  {
    assert b == a + (b - a);
  }

  lemma EnteredOk(parent: Frame, id: nat)
    requires FrameOk(parent) && Begin(parent, id).Entered?
    ensures FrameOk(Begin(parent, id).frame) && DepthOf(Begin(parent, id).frame) == DepthOf(parent) + 1
    ensures Ids(Begin(parent, id).frame) == Ids(parent) + {id}
  {
  }
}
