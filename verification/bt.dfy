/** The behavior tree as src/bt.rs runs it: each Sequence is an object whose
    cursor `active` is updated in place, children are owned exclusively by
    their parent, and a tick dispatches on the kind of node. Every tick is
    proved to do what BtSpec.Tick says of the tree's abstract value. */
module Bt {
  import opened BtSpec

  /** A child slot of a Sequence or the root of a tree: any node kind. An
      Action carries no mutable state, so it is held as a value; a Sequence
      is an object. */
  datatype NodeRef =
    | ActionRef(func: () -> Status)
    | SequenceRef(node: Sequence)

  /** A tree as attached to an agent: the root node it owns. */
  datatype BehaviorTree = BehaviorTree(root: NodeRef)

  /** The record of callback invocations. Every call of an Action's callback
      goes through Invoke, which appends the callback to `calls`, so the
      number and order of the calls a tick makes is observable. */
  class CallLog {
    var calls: seq<() -> Status>

    constructor ()
      ensures calls == []
    {
      calls := [];
    }

    /** Calls `f` once and records that call. */
    method Invoke(f: () -> Status) returns (s: Status)
      modifies this
      ensures s == f()
      ensures calls == old(calls) + [f]
    {
      s := f();
      calls := calls + [f];
    }
  }

  /** The objects a node owns (nothing, for an Action). */
  ghost function NodeRepr(n: NodeRef): set<object> {
    match n
    case ActionRef(_) => {}
    case SequenceRef(q) => q.Repr
  }

  ghost predicate NodeValid(n: NodeRef)
    reads NodeRepr(n)
    ensures NodeValid(n) ==> WellFormed(NodeModel(n))
    decreases NodeRepr(n), 1
  {
    n.SequenceRef? ==> n.node.Valid()
  }

  /** The abstract value of a node. */
  ghost function NodeModel(n: NodeRef): Node
    reads if n.SequenceRef? then {n.node} else {}
  {
    match n
    case ActionRef(f) => Action(f)
    case SequenceRef(q) => q.Model
  }

  /** The union of the objects the given children own. */
  ghost function ReprUnion(ns: seq<NodeRef>): (r: set<object>)
    ensures forall i :: 0 <= i < |ns| ==> NodeRepr(ns[i]) <= r
  {
    if ns == [] then {} else NodeRepr(ns[0]) + ReprUnion(ns[1..])
  }

  /** The abstract values of the given children. */
  ghost function Models(ns: seq<NodeRef>): (ms: seq<Node>)
    reads set n | n in ns && n.SequenceRef? :: n.node
    ensures |ms| == |ns|
    ensures forall i :: 0 <= i < |ns| ==> ms[i] == NodeModel(ns[i])
  {
    if ns == [] then [] else [NodeModel(ns[0])] + Models(ns[1..])
  }

  class Sequence {
    const children: seq<NodeRef>
    var active: nat

    /** The objects of this subtree; its shape never changes. */
    ghost const Repr: set<object>
    /** The abstract value of this subtree. */
    ghost var Model: Node

    /** Ownership, which never changes since it is stated over constants:
        every child's objects are owned by this Sequence alone (none is this
        node, none is shared with a sibling), recursively. */
    ghost predicate Owned()
      decreases Repr
    {
      this in Repr &&
      (forall i :: 0 <= i < |children| ==>
        NodeRepr(children[i]) <= Repr && this !in NodeRepr(children[i]) &&
        (children[i].SequenceRef? ==> children[i].node.Owned())) &&
      (forall i, j :: 0 <= i < j < |children| ==> NodeRepr(children[i]) !! NodeRepr(children[j]))
    }

    /** Object invariant: the subtree is owned as above, the cursor is in
        bounds, every child is a valid subtree, and Model is the value of the
        subtree. */
    ghost predicate Valid()
      reads Repr
      ensures Valid() ==> Owned()
      decreases Repr, 0
    {
      Owned() &&
      active < |children| &&
      Model.Sequence? && Model.active == active && |Model.children| == |children| &&
      WellFormed(Model) &&
      (forall i :: 0 <= i < |children| ==>
        NodeValid(children[i]) && Model.children[i] == NodeModel(children[i]))
    }

    /** Builds a Sequence over children it takes ownership of, with the
        cursor at `active`. */
    constructor (children: seq<NodeRef>, active: nat)
      requires active < |children|
      requires forall i :: 0 <= i < |children| ==> NodeValid(children[i])
      requires forall i, j :: 0 <= i < j < |children| ==> NodeRepr(children[i]) !! NodeRepr(children[j])
      ensures Valid()
      ensures this.children == children && this.active == active
      ensures Model == BtSpec.Sequence(Models(children), active)
      ensures Repr == {this} + ReprUnion(children)
    {
      this.children := children;
      this.active := active;
      Repr := {this} + ReprUnion(children);
      Model := BtSpec.Sequence(Models(children), active);
      new;
      forall i | 0 <= i < |children|
        ensures this !in NodeRepr(children[i]) && NodeValid(children[i])
      {
        assert old(NodeValid(children[i]));
      }
    }

    /** One tick: ticks exactly the child at `active` and updates the cursor
        in place, as BtSpec.Tick does on the abstract value. */
    method Tick(log: CallLog) returns (s: Status)
      requires Valid() && log !in Repr
      modifies Repr, log
      ensures Valid()
      ensures log.calls == old(log.calls) + [ActiveCallback(old(Model))]
      ensures s == BtSpec.Tick(old(Model)).status
      ensures Model == BtSpec.Tick(old(Model)).node
      decreases Repr, 0
    {
      ghost var r := BtSpec.Tick(Model);
      ghost var a := active;
      var child := children[active];
      assert NodeRepr(child) < Repr;
      var childStatus := TickNode(child, log);
      forall i | 0 <= i < |children| && i != a
        ensures NodeValid(children[i]) && NodeModel(children[i]) == old(NodeModel(children[i]))
      {
        assert NodeRepr(children[i]) !! NodeRepr(child);
      }
      if childStatus == Success {
        if active + 1 < |children| {
          active := active + 1;
          s := Running;
        } else {
          s := Success;
        }
      } else {
        if childStatus == Failure {
          active := 0;
        }
        s := childStatus;
      }
      Model := r.node;
    }
  }

  /** Node::tick by dispatch on the node kind: an Action calls its callback
      once and returns the result verbatim; a Sequence runs its own tick. */
  method TickNode(n: NodeRef, log: CallLog) returns (s: Status)
    requires NodeValid(n) && log !in NodeRepr(n)
    modifies NodeRepr(n), log
    ensures NodeValid(n)
    ensures log.calls == old(log.calls) + [ActiveCallback(old(NodeModel(n)))]
    ensures s == BtSpec.Tick(old(NodeModel(n))).status
    ensures NodeModel(n) == BtSpec.Tick(old(NodeModel(n))).node
    decreases NodeRepr(n), 1
  {
    match n
    case ActionRef(f) =>
      s := log.Invoke(f);
    case SequenceRef(q) =>
      s := q.Tick(log);
  }

  /** create_basic_bt: a root Sequence over an always-succeeding Action and a
      nested Sequence of succeed, succeed, fail, both cursors at 0. */
  method CreateBasicBt() returns (bt: BehaviorTree)
    ensures NodeValid(bt.root) && fresh(NodeRepr(bt.root))
    ensures NodeModel(bt.root) == BasicTree()
  {
    var leaves := [ActionRef(AlwaysSucceed), ActionRef(AlwaysSucceed), ActionRef(AlwaysFail)];
    assert forall i :: 0 <= i < |leaves| ==> NodeRepr(leaves[i]) == {};
    assert ReprUnion(leaves[2..]) == {} by { assert leaves[2..][1..] == []; }
    assert ReprUnion(leaves[1..]) == {} by { assert leaves[1..][1..] == leaves[2..]; }
    assert ReprUnion(leaves) == {};
    assert Models(leaves) == [Action(AlwaysSucceed), Action(AlwaysSucceed), Action(AlwaysFail)];
    var inner := new Sequence(leaves, 0);
    var rootChildren := [ActionRef(AlwaysSucceed), SequenceRef(inner)];
    assert NodeRepr(rootChildren[0]) == {} && NodeRepr(rootChildren[1]) == inner.Repr;
    assert ReprUnion(rootChildren[1..]) == inner.Repr by { assert rootChildren[1..][1..] == []; }
    assert ReprUnion(rootChildren) == inner.Repr;
    assert Models(rootChildren) == [Action(AlwaysSucceed), inner.Model];
    var root := new Sequence(rootChildren, 0);
    bt := BehaviorTree(SequenceRef(root));
  }

  /** Four passes over a tree whose value is the sample tree as built:
      Running, Running, Running, Failure, one callback call per pass, and the
      tree is then back to its value as built. */
  method BasicTreeFourTicks(root: NodeRef, log: CallLog) returns (statuses: seq<Status>)
    requires NodeValid(root) && log !in NodeRepr(root)
    requires NodeModel(root) == BasicTree()
    modifies NodeRepr(root), log
    ensures NodeValid(root) && NodeModel(root) == BasicTree()
    ensures statuses == [Running, Running, Running, Failure]
    ensures log.calls == old(log.calls) + [AlwaysSucceed, AlwaysSucceed, AlwaysSucceed, AlwaysFail]
  {
    BasicTreeSteps();
    BasicTreeCallbacks();
    ghost var c := log.calls;
    var s1 := TickNode(root, log);
    assert NodeModel(root) == BasicTreeAt(1, 0) && log.calls == c + [AlwaysSucceed];
    var s2 := TickNode(root, log);
    assert NodeModel(root) == BasicTreeAt(1, 1) && log.calls == c + [AlwaysSucceed, AlwaysSucceed];
    var s3 := TickNode(root, log);
    assert NodeModel(root) == BasicTreeAt(1, 2) && log.calls == c + [AlwaysSucceed, AlwaysSucceed, AlwaysSucceed];
    var s4 := TickNode(root, log);
    statuses := [s1, s2, s3, s4];
  }

  /** Builds the sample tree and ticks its root eight times, as the host does
      on eight successive passes: Running, Running, Running, Failure, after
      which both cursors are back at 0 and the same four statuses repeat.
      Each pass calls exactly one callback. */
  method BasicTreeEightTicks() returns (statuses: seq<Status>, calls: seq<() -> Status>)
    ensures statuses == [Running, Running, Running, Failure, Running, Running, Running, Failure]
    ensures calls == [AlwaysSucceed, AlwaysSucceed, AlwaysSucceed, AlwaysFail,
                      AlwaysSucceed, AlwaysSucceed, AlwaysSucceed, AlwaysFail]
  {
    var bt := CreateBasicBt();
    var log := new CallLog();
    var first := BasicTreeFourTicks(bt.root, log);
    var second := BasicTreeFourTicks(bt.root, log);
    statuses := first + second;
    calls := log.calls;
  }
}
