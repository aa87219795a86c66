/** The game's `StateStack`: states (main menu, start, world, editor) are
    stacked, and stack operations requested while the stack is being walked
    are queued and applied afterwards. A state is modelled by its id; the
    factories registered with `RegisterState` are the set of ids that can be
    created. A failed `MDCII_ASSERT` and `back()` on an empty stack end the
    run; both become `Err`. */
module StateStacks {
  import opened Results

  datatype StateId = MAIN_MENU | START | WORLD | EDITOR | ALL

  datatype Action = PUSH | POP | CLEAR

  datatype PendingChange = PendingChange(action: Action, id: StateId)

  /** `stack` is bottom first; `pending` is in request order. */
  datatype StateStack = StateStack(stack: seq<StateId>, pending: seq<PendingChange>, factories: set<StateId>)

  datatype StackError =
    | NoFactory(id: StateId)
    | PopOnEmptyStack(id: StateId)
    | InvalidPop(id: StateId, top: StateId)

  /** `PushState`: queues a PUSH. */
  function PushState(s: StateStack, id: StateId): (r: StateStack)
    ensures r.stack == s.stack && r.factories == s.factories
    ensures |r.pending| == |s.pending| + 1 && r.pending[..|s.pending|] == s.pending
    ensures r.pending[|s.pending|] == PendingChange(PUSH, id)
  {
    s.(pending := s.pending + [PendingChange(PUSH, id)])
  }

  /** `PopState`: queues a POP naming the state expected on top. */
  function PopState(s: StateStack, id: StateId): (r: StateStack)
    ensures r.stack == s.stack && r.factories == s.factories
    ensures |r.pending| == |s.pending| + 1 && r.pending[..|s.pending|] == s.pending
    ensures r.pending[|s.pending|] == PendingChange(POP, id)
  {
    s.(pending := s.pending + [PendingChange(POP, id)])
  }

  /** `ClearStates`: queues a CLEAR, whose id is ALL. */
  function ClearStates(s: StateStack): (r: StateStack)
    ensures r.stack == s.stack && r.factories == s.factories
    ensures |r.pending| == |s.pending| + 1 && r.pending[..|s.pending|] == s.pending
    ensures r.pending[|s.pending|] == PendingChange(CLEAR, ALL)
  {
    s.(pending := s.pending + [PendingChange(CLEAR, ALL)])
  }

  /** One change of `ApplyPendingChanges`: PUSH creates the state through
      its factory (asserted to exist) and appends it; POP asserts that the
      top state has the change's id and removes it; CLEAR empties the stack. */
  function ApplyChange(stack: seq<StateId>, factories: set<StateId>, c: PendingChange): (r: Result<seq<StateId>, StackError>)
    ensures c.action == PUSH ==> (r.Ok? <==> c.id in factories) && (r.Ok? ==> r.value == stack + [c.id])
    ensures c.action == POP ==> (r.Ok? <==> |stack| > 0 && stack[|stack| - 1] == c.id)
                                && (r.Ok? ==> r.value == stack[..|stack| - 1])
    ensures c.action == CLEAR ==> r == Ok([])
  {
    match c.action
    case PUSH =>
      if c.id in factories then Ok(stack + [c.id]) else Err(NoFactory(c.id))
    case POP =>
      if |stack| == 0 then Err(PopOnEmptyStack(c.id))
      else if stack[|stack| - 1] != c.id then Err(InvalidPop(c.id, stack[|stack| - 1]))
      else Ok(stack[..|stack| - 1])
    case CLEAR =>
      Ok([])
  }

  /** The changes applied one after the other, in queue order; the first
      failing one ends the run. */
  function ApplyAll(stack: seq<StateId>, factories: set<StateId>, changes: seq<PendingChange>): Result<seq<StateId>, StackError>
    decreases |changes|
  {
    if |changes| == 0 then Ok(stack)
    else
      var next :- ApplyChange(stack, factories, changes[0]);
      ApplyAll(next, factories, changes[1..])
  }

  /** `ApplyPendingChanges`: applies the queue, then empties it. */
  function ApplyPendingChanges(s: StateStack): (r: Result<StateStack, StackError>)
    ensures r.Ok? ==> r.value.pending == [] && r.value.factories == s.factories
    ensures r.Ok? <==> ApplyAll(s.stack, s.factories, s.pending).Ok?
  {
    var stack :- ApplyAll(s.stack, s.factories, s.pending);
    Ok(StateStack(stack, [], s.factories))
  }

  /** Queue order: applying a + b is applying a, then b to the result. */
  lemma {:induction false} ApplyAllAppend(stack: seq<StateId>, factories: set<StateId>, a: seq<PendingChange>, b: seq<PendingChange>)
    ensures ApplyAll(stack, factories, a + b)
            == match ApplyAll(stack, factories, a)
               case Ok(mid) => ApplyAll(mid, factories, b)
               case Err(e) => Err(e)
    decreases |a|
  {
    if |a| == 0 {
      assert a + b == b;
    } else {
      assert (a + b)[0] == a[0] && (a + b)[1..] == a[1..] + b;
      match ApplyChange(stack, factories, a[0])
      case Ok(next) => ApplyAllAppend(next, factories, a[1..], b);
      case Err(_) =>
    }
  }

  /** A queued PUSH of a registered state puts it on top of the stack the
      earlier changes leave. */
  lemma PushIsApplied(s: StateStack, id: StateId)
    requires id in s.factories && ApplyPendingChanges(s).Ok?
    ensures ApplyPendingChanges(PushState(s, id)) == Ok(StateStack(ApplyPendingChanges(s).value.stack + [id], [], s.factories))
  {
    ApplyAllAppend(s.stack, s.factories, s.pending, [PendingChange(PUSH, id)]);
  }

  /** A queued PUSH of a state without a factory fails the run. */
  lemma PushWithoutFactoryFails(s: StateStack, id: StateId)
    requires id !in s.factories
    ensures ApplyPendingChanges(PushState(s, id)).Err?
  {
    ApplyAllAppend(s.stack, s.factories, s.pending, [PendingChange(PUSH, id)]);
  }

  /** A PUSH followed by a POP of the same state leaves the stack as the
      earlier changes leave it. */
  lemma PushPopCancel(s: StateStack, id: StateId)
    requires id in s.factories && ApplyPendingChanges(s).Ok?
    ensures ApplyPendingChanges(PopState(PushState(s, id), id)) == ApplyPendingChanges(s)
  {
    var mid := ApplyAll(s.stack, s.factories, s.pending).value;
    var changes := [PendingChange(PUSH, id), PendingChange(POP, id)];
    assert s.pending + [PendingChange(PUSH, id)] + [PendingChange(POP, id)] == s.pending + changes;
    ApplyAllAppend(s.stack, s.factories, s.pending, changes);
    assert (mid + [id])[..|mid|] == mid;
    assert changes[1..] == [PendingChange(POP, id)] && changes[1..][1..] == [];
    assert ApplyAll(mid + [id], s.factories, changes[1..]) == Ok(mid);
  }

  /** A POP whose id is not the top state's (or on an empty stack) fails
      the run. */
  lemma InvalidPopFails(s: StateStack, id: StateId)
    requires ApplyPendingChanges(s).Ok?
    requires var st := ApplyPendingChanges(s).value.stack; |st| == 0 || st[|st| - 1] != id
    ensures ApplyPendingChanges(PopState(s, id)).Err?
  {
    ApplyAllAppend(s.stack, s.factories, s.pending, [PendingChange(POP, id)]);
  }

  /** After a queued CLEAR only the changes queued after it matter. */
  lemma ClearForgetsEarlierStates(stack: seq<StateId>, factories: set<StateId>, a: seq<PendingChange>, b: seq<PendingChange>)
    requires ApplyAll(stack, factories, a).Ok?
    ensures ApplyAll(stack, factories, a + [PendingChange(CLEAR, ALL)] + b) == ApplyAll([], factories, b)
  {
    ApplyAllAppend(stack, factories, a, [PendingChange(CLEAR, ALL)] + b);
    assert a + [PendingChange(CLEAR, ALL)] + b == a + ([PendingChange(CLEAR, ALL)] + b);
    var mid := ApplyAll(stack, factories, a).value;
    assert ([PendingChange(CLEAR, ALL)] + b)[1..] == b;
  }

  /** Every state on the stack was created by a registered factory, and
      applying changes keeps it so. */
  lemma {:induction false} ApplyAllKeepsRegistered(stack: seq<StateId>, factories: set<StateId>, changes: seq<PendingChange>)
    requires forall k :: 0 <= k < |stack| ==> stack[k] in factories
    requires ApplyAll(stack, factories, changes).Ok?
    ensures var r := ApplyAll(stack, factories, changes).value;
            forall k :: 0 <= k < |r| ==> r[k] in factories
    decreases |changes|
  {
    if |changes| > 0 {
      var next := ApplyChange(stack, factories, changes[0]).value;
      assert forall k :: 0 <= k < |next| ==> next[k] in factories by {
        if changes[0].action == PUSH {
          assert forall k :: 0 <= k < |stack| ==> next[k] == stack[k];
        }
      }
      ApplyAllKeepsRegistered(next, factories, changes[1..]);
    }
  }

  /** The stack grows by at most one state per queued PUSH. */
  lemma {:induction false} ApplyAllGrowth(stack: seq<StateId>, factories: set<StateId>, changes: seq<PendingChange>)
    requires ApplyAll(stack, factories, changes).Ok?
    ensures |ApplyAll(stack, factories, changes).value| <= |stack| + Pushes(changes)
    decreases |changes|
  {
    if |changes| > 0 {
      var next := ApplyChange(stack, factories, changes[0]).value;
      ApplyAllGrowth(next, factories, changes[1..]);
    }
  }

  function Pushes(changes: seq<PendingChange>): nat
  {
    if |changes| == 0 then 0 else (if changes[0].action == PUSH then 1 else 0) + Pushes(changes[1..])
  }

  /** `Input` and `Update` (they differ only in which state callback runs):
      the states are visited from top to bottom, each appending the
      changes it requests (`requests[k]` for the k-th visited state) to the
      queue; the stack is not touched while it is walked, and the queue is
      applied afterwards. */
  method Dispatch(s: StateStack, requests: seq<seq<PendingChange>>) returns (visited: seq<StateId>, r: Result<StateStack, StackError>)
    requires |requests| == |s.stack|
    ensures |visited| == |s.stack|
    ensures forall k :: 0 <= k < |visited| ==> visited[k] == s.stack[|s.stack| - 1 - k]
    ensures r == ApplyPendingChanges(s.(pending := s.pending + Concat(requests)))
  {
    var pending := s.pending;
    visited := [];
    var k := 0;
    while k < |s.stack|
      invariant 0 <= k <= |s.stack| && |visited| == k
      invariant forall j :: 0 <= j < k ==> visited[j] == s.stack[|s.stack| - 1 - j]
      invariant pending == s.pending + Concat(requests[..k])
    {
      visited := visited + [s.stack[|s.stack| - 1 - k]];
      ConcatStep(requests, k);
      pending := pending + requests[k];
      k := k + 1;
    }
    assert requests[..k] == requests;
    r := ApplyPendingChanges(s.(pending := pending));
  }

  function Concat(xs: seq<seq<PendingChange>>): seq<PendingChange>
  {
    if |xs| == 0 then [] else Concat(xs[..|xs| - 1]) + xs[|xs| - 1]
  }

  lemma ConcatStep(xs: seq<seq<PendingChange>>, k: nat)
    requires k < |xs|
    ensures Concat(xs[..k + 1]) == Concat(xs[..k]) + xs[k]
  {
    assert xs[..k + 1][..k] == xs[..k];
  }
}
