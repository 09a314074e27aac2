/**
 * The game tree (GameStateTreeNode.kt). A node holds a fully observed state, two optional
 * probabilities, an optional parent and a mutable list of children. `add` appends a leaf,
 * `asSequence` lists the subtree in post-order, and `branch(depth)` grows the tree by
 * appending one child per state the offered moves lead to, each grown to `depth - 1`.
 */
module Trees {
  import opened Wrappers
  import opened Lists
  import opened Utils
  import opened GameStates
  import opened Actions
  import opened Offers

  /** The branch of an offered action; offered actions always pass their stage check. */
  function BranchOf(s: FullGameState, a: Action): (r: seq<FullGameState>)
    requires a in StageActions(s.stage, s)
    ensures Branch(a, s).Ok? && r == Branch(a, s).value
  {
    OfferedActionsApply(s, a);
    Branch(a, s).value
  }

  /** `value.stage.actions(value).map { it.branch(value) }`: one list of states per offered
      action, in offer order. */
  function Moves(s: FullGameState): (r: seq<seq<FullGameState>>)
    ensures |r| == |StageActions(s.stage, s)|
    ensures forall i :: 0 <= i < |r| ==> r[i] == BranchOf(s, StageActions(s.stage, s)[i])
  {
    var offered := StageActions(s.stage, s);
    seq(|offered|, i requires 0 <= i < |offered| => BranchOf(s, offered[i]))
  }

  /** The states one move away, as `foldToList` concatenates them. */
  function NextStates(s: FullGameState): seq<FullGameState> {
    Flatten(Moves(s))
  }

  /** A state is one move away exactly when some offered action leads to it. */
  lemma NextStatesMembers(s: FullGameState, t: FullGameState)
    ensures var offered := StageActions(s.stage, s);
      t in NextStates(s) <==> exists i :: 0 <= i < |offered| && t in BranchOf(s, offered[i])
  {
    FlattenMembers(Moves(s), t);
  }

  /** Every state one move away from a dealt state is dealt: consistent cards, hands sized
      by the stage table. */
  lemma NextStatesDealt(s: FullGameState, t: FullGameState)
    requires Dealt(s) && t in NextStates(s)
    ensures Dealt(t)
  {
    var offered := StageActions(s.stage, s);
    NextStatesMembers(s, t);
    var i :| 0 <= i < |offered| && t in BranchOf(s, offered[i]);
    PlayKeepsDealt(s, offered[i], t);
  }

  class GameStateTreeNode {
    const value: FullGameState
    var winProbability: Option<real>
    var playProbability: Option<real>
    const parent: Option<GameStateTreeNode>
    var children: seq<GameStateTreeNode>
    /** The nodes of this subtree. */
    ghost var Repr: set<GameStateTreeNode>

    /** A tree: the subtree is this node and its children's subtrees, which share no node. */
    ghost predicate Valid()
      reads this, Repr
      decreases Repr
    {
      && this in Repr
      && (forall i :: 0 <= i < |children| ==>
            && children[i] in Repr
            && children[i].Repr <= Repr
            && this !in children[i].Repr)
      && (forall i, j :: 0 <= i < j < |children| ==> children[i].Repr !! children[j].Repr)
      && Repr == {this} + ReprOf(children)
      && (forall i :: 0 <= i < |children| ==> children[i].Valid())
    }

    /** The nodes of several subtrees, gathered one subtree at a time. */
    static ghost function ReprOf(nodes: seq<GameStateTreeNode>): set<GameStateTreeNode>
      reads nodes
    {
      if nodes == [] then {} else ReprOf(nodes[..|nodes| - 1]) + nodes[|nodes| - 1].Repr
    }

    /** `GameStateTreeNode(value, winProbability, playProbability, parent)`, with no children. */
    constructor (value: FullGameState, winProbability: Option<real>, playProbability: Option<real>,
                 parent: Option<GameStateTreeNode>)
      ensures Valid() && fresh(Repr) && Repr == {this}
      ensures this.value == value && this.parent == parent && children == []
      ensures this.winProbability == winProbability && this.playProbability == playProbability
    {
      this.value := value;
      this.winProbability := winProbability;
      this.playProbability := playProbability;
      this.parent := parent;
      children := [];
      Repr := {this};
    }

    /** Appends a subtree that shares no node with this one (the delegated `MutableList.add`). */
    method AddNode(node: GameStateTreeNode)
      requires Valid() && node.Valid() && node.Repr !! Repr
      modifies this
      ensures Valid() && Repr == old(Repr) + node.Repr
      ensures children == old(children) + [node]
      ensures winProbability == old(winProbability) && playProbability == old(playProbability)
    {
      assert (children + [node])[..|children|] == children;
      assert forall i :: 0 <= i < |children| ==> children[i].Repr <= Repr;
      children := children + [node];
      Repr := Repr + node.Repr;
    }

    /** `add(value)`: appends a new leaf holding `value`, with no parent. */
    method Add(v: FullGameState)
      requires Valid()
      modifies this
      ensures Valid() && fresh(Repr - old(Repr))
      ensures |children| == |old(children)| + 1 && children[..|old(children)|] == old(children)
      ensures var leaf := children[|old(children)|];
        leaf.value == v && leaf.children == [] && leaf.parent == None
        && leaf.winProbability == None && leaf.playProbability == None
    {
      var leaf := new GameStateTreeNode(v, None, None, None);
      AddNode(leaf);
    }

    /** The post-order lists of the first `k` children, one after the other. */
    function Descendants(k: int): seq<GameStateTreeNode>
      requires Valid() && 0 <= k <= |children|
      reads Repr
      decreases Repr, k
    {
      if k == 0 then [] else Descendants(k - 1) + children[k - 1].AsSequence()
    }

    /** `asSequence`: the children's subtrees in order, then this node. */
    function AsSequence(): seq<GameStateTreeNode>
      requires Valid()
      reads Repr
      decreases Repr, |children| + 1
    {
      Descendants(|children|) + [this]
    }

    /** `asSequence` yields every node of the subtree exactly once, this node last. */
    lemma {:induction false} AsSequenceNodes()
      requires Valid()
      ensures Elems(AsSequence()) == Repr && Distinct(AsSequence()) && |AsSequence()| == |Repr|
      ensures AsSequence()[|AsSequence()| - 1] == this
      decreases Repr, |children| + 1, 0
    {
      var below := Descendants(|children|);
      DescendantsNodes(|children|);
      assert children[..|children|] == children;
      ReprOfMembers(children, this);
      JoinLast(below, this, ReprOf(children), Repr);
    }

    /** A duplicate-free listing of some nodes, followed by one node more, lists those
        nodes and that one without duplicates. */
    static lemma JoinLast(below: seq<GameStateTreeNode>, node: GameStateTreeNode,
                          before: set<GameStateTreeNode>, all: set<GameStateTreeNode>)
      requires Elems(below) == before && Distinct(below) && node !in before
      requires all == {node} + before
      ensures var r := below + [node];
        Elems(r) == all && Distinct(r) && |r| == |all| && r[|r| - 1] == node
    {
      assert Elems([node]) == {node};
      ConcatElems(below, [node]);
      DistinctIffAllCounted(below + [node]);
    }

    lemma {:induction false} DescendantsNodes(k: int)
      requires Valid() && 0 <= k <= |children|
      ensures Elems(Descendants(k)) == ReprOf(children[..k]) && Distinct(Descendants(k))
      decreases Repr, k, 1
    {
      if k > 0 {
        DescendantsStep(k);
      }
    }

    /** Each child roots a valid subtree strictly inside this one. */
    lemma ChildSubtree(i: int)
      requires Valid() && 0 <= i < |children|
      ensures children[i].Valid() && children[i].Repr < Repr
    {
    }

    /** One more child's post-order list, added after the earlier ones. */
    lemma DescendantsStep(k: int)
      requires Valid() && 0 < k <= |children|
      ensures Elems(Descendants(k)) == ReprOf(children[..k]) && Distinct(Descendants(k))
      decreases Repr, k, 0
    {
      DescendantsNodes(k - 1);
      ChildSubtree(k - 1);
      children[k - 1].AsSequenceNodes();
      var init, last := Descendants(k - 1), children[k - 1].AsSequence();
      assert Descendants(k) == init + last;
      ReprOfSnoc(children, k);
      DisjointFromEarlier(k - 1);
      JoinSubtrees(init, last, ReprOf(children[..k - 1]), children[k - 1].Repr);
    }

    /** Gathering one more subtree adds its nodes. */
    static lemma ReprOfSnoc(nodes: seq<GameStateTreeNode>, k: int)
      requires 0 < k <= |nodes|
      ensures ReprOf(nodes[..k]) == ReprOf(nodes[..k - 1]) + nodes[k - 1].Repr
    {
      assert nodes[..k][..k - 1] == nodes[..k - 1];
    }

    /** Two duplicate-free listings of disjoint node sets, one after the other. */
    static lemma JoinSubtrees(init: seq<GameStateTreeNode>, last: seq<GameStateTreeNode>,
                              a: set<GameStateTreeNode>, b: set<GameStateTreeNode>)
      requires Elems(init) == a && Distinct(init) && Elems(last) == b && Distinct(last) && a !! b
      ensures Elems(init + last) == a + b && Distinct(init + last)
    {
      ConcatElems(init, last);
    }

    /** The number of nodes in several subtrees, counted one subtree at a time. */
    static ghost function SizeOf(nodes: seq<GameStateTreeNode>): nat
      reads nodes
    {
      if nodes == [] then 0 else SizeOf(nodes[..|nodes| - 1]) + |nodes[|nodes| - 1].Repr|
    }

    /** `asSequence` is one longer than the children's sequences together. */
    lemma AsSequenceLength()
      requires Valid()
      ensures |AsSequence()| == 1 + SizeOf(children)
    {
      AsSequenceNodes();
      SizeOfDisjoint(|children|);
      assert children[..|children|] == children;
      ReprOfMembers(children, this);
    }

    lemma {:induction false} SizeOfDisjoint(k: int)
      requires Valid() && 0 <= k <= |children|
      ensures |ReprOf(children[..k])| == SizeOf(children[..k])
    {
      if k > 0 {
        SizeOfDisjoint(k - 1);
        assert children[..k][..k - 1] == children[..k - 1];
        DisjointFromEarlier(k - 1);
      }
    }

    /** The subtree is the tree that `next` grows `depth` levels below this node: no
        children for a negative depth, otherwise exactly the children `GrownFrom(0, ...)`
        describes. */
    ghost predicate Grown(depth: int, next: FullGameState -> seq<FullGameState>)
      requires Valid()
      reads Repr
      decreases Repr, 1
    {
      if depth < 0 then children == [] else GrownFrom(0, depth, next)
    }

    /** From position `k0` on, the children are one node per state of `next(value)`, in
        order, each `Built` for this node and `depth`. */
    ghost predicate GrownFrom(k0: int, depth: int, next: FullGameState -> seq<FullGameState>)
      requires Valid()
      reads Repr
      decreases Repr, 0
    {
      var states := next(value);
      && 0 <= k0 <= |children| && |children| - k0 == |states|
      && forall i :: k0 <= i < |children| ==> Built(children[i], this, states[i - k0], depth, next)
    }

    /** A node that growing makes below `parent` at `depth`: it holds `v`, has no
        probabilities, and is grown `depth - 1` levels. */
    static ghost predicate Built(n: GameStateTreeNode, parent: GameStateTreeNode, v: FullGameState,
                                 depth: int, next: FullGameState -> seq<FullGameState>)
      reads n, n.Repr
      decreases n.Repr, 2
    {
      && n.Valid()
      && n.value == v && n.parent == Some(parent)
      && n.winProbability == None && n.playProbability == None
      && n.Grown(depth - 1, next)
    }

    /** `branch(depth)`: for a depth of zero or more, a node per state one move away is made
        with this node as parent, grown to `depth - 1` and appended; a negative depth does
        nothing. The node's own value and probabilities never change. */
    method Branch(depth: int)
      requires Valid()
      modifies this
      ensures Valid() && fresh(Repr - old(Repr))
      ensures winProbability == old(winProbability) && playProbability == old(playProbability)
      ensures |old(children)| <= |children| && children[..|old(children)|] == old(children)
      ensures depth < 0 ==> children == old(children) && Repr == old(Repr)
      ensures depth >= 0 ==> GrownFrom(|old(children)|, depth, NextStates)
      ensures old(children) == [] ==> Grown(depth, NextStates)
    {
      BranchBy(depth, NextStates);
    }

    /** The growing `branch` does, for any way `next` of listing the states one move away
        (the game's is `NextStates`, which `foldToList` computes). */
    method BranchBy(depth: int, next: FullGameState -> seq<FullGameState>)
      requires Valid()
      modifies this
      ensures Valid() && fresh(Repr - old(Repr))
      ensures winProbability == old(winProbability) && playProbability == old(playProbability)
      ensures |old(children)| <= |children| && children[..|old(children)|] == old(children)
      ensures depth < 0 ==> children == old(children) && Repr == old(Repr)
      ensures depth >= 0 ==> GrownFrom(|old(children)|, depth, next)
      ensures old(children) == [] ==> Grown(depth, next)
      decreases depth, 3
    {
      if depth >= 0 {
        ghost var made := GrowAll(next(value), depth, next);
        assert children[..|old(children)|] == old(children);
        GrownFromMade(|old(children)|, made, depth, next);
      }
    }

    /** The loop of `branch`: a grown child per state, appended in order. */
    method GrowAll(states: seq<FullGameState>, depth: int, next: FullGameState -> seq<FullGameState>)
      returns (ghost made: seq<GameStateTreeNode>)
      requires Valid() && depth >= 0
      modifies this
      ensures Valid() && fresh(Repr - old(Repr))
      ensures winProbability == old(winProbability) && playProbability == old(playProbability)
      ensures children == old(children) + made && |made| == |states|
      ensures forall j :: 0 <= j < |states| ==> Built(made[j], this, states[j], depth, next)
      decreases depth, 2
    {
      made := [];
      for i := 0 to |states|
        invariant Valid() && fresh(Repr - old(Repr))
        invariant winProbability == old(winProbability) && playProbability == old(playProbability)
        invariant children == old(children) + made && |made| == i
        invariant forall j :: 0 <= j < i ==> made[j] != this && this !in made[j].Repr
        invariant forall j :: 0 <= j < i ==> Built(made[j], this, states[j], depth, next)
      {
        made := GrowNext(states, i, made, depth, next);
      }
    }

    /** One turn of the `forEach`: the `i`-th state's child is grown and appended, and the
        children grown before it stay as they were. */
    method GrowNext(states: seq<FullGameState>, i: int, ghost made: seq<GameStateTreeNode>, depth: int,
                    next: FullGameState -> seq<FullGameState>)
      returns (ghost made': seq<GameStateTreeNode>)
      requires Valid() && depth >= 0 && 0 <= i < |states| && |made| == i
      requires forall j :: 0 <= j < i ==> made[j] != this && this !in made[j].Repr
      requires forall j :: 0 <= j < i ==> Built(made[j], this, states[j], depth, next)
      modifies this
      ensures Valid() && fresh(Repr - old(Repr))
      ensures winProbability == old(winProbability) && playProbability == old(playProbability)
      ensures |made'| == i + 1 && made' == made + [made'[i]] && children == old(children) + [made'[i]]
      ensures forall j :: 0 <= j < i + 1 ==> made'[j] != this && this !in made'[j].Repr
      ensures forall j :: 0 <= j < i + 1 ==> Built(made'[j], this, states[j], depth, next)
      decreases depth, 1
    {
      var child := GrowChild(states[i], depth, next);
      made' := made + [child];
    }

    lemma GrownFromMade(k0: int, made: seq<GameStateTreeNode>, depth: int,
                        next: FullGameState -> seq<FullGameState>)
      requires Valid() && 0 <= k0 <= |children| && children[k0..] == made
      requires |made| == |next(value)|
      requires forall j :: 0 <= j < |made| ==> Built(made[j], this, next(value)[j], depth, next)
      ensures GrownFrom(k0, depth, next)
    {
      forall i | k0 <= i < |children|
        ensures Built(children[i], this, next(value)[i - k0], depth, next)
      {
        assert children[i] == made[i - k0];
      }
    }

    /** A new node below this one holding `v`, grown `depth - 1` levels and appended. */
    method GrowChild(v: FullGameState, depth: int, next: FullGameState -> seq<FullGameState>)
      returns (child: GameStateTreeNode)
      requires Valid() && depth >= 0
      modifies this
      ensures Valid() && fresh(Repr - old(Repr))
      ensures winProbability == old(winProbability) && playProbability == old(playProbability)
      ensures children == old(children) + [child]
      ensures child != this && this !in child.Repr && Built(child, this, v, depth, next)
      decreases depth, 0
    {
      child := new GameStateTreeNode(v, None, None, Some(this));
      child.BranchBy(depth - 1, next);
      AddNode(child);
    }

    /** Edges on the longest path down from this node. */
    ghost function Height(): nat
      requires Valid()
      reads Repr
      decreases Repr, |children| + 1
    {
      HeightBelow(|children|)
    }

    /** The height contributed by the first `k` children. */
    ghost function HeightBelow(k: int): nat
      requires Valid() && 0 <= k <= |children|
      reads Repr
      decreases Repr, k
    {
      if k == 0 then 0
      else
        var h := 1 + children[k - 1].Height();
        var rest := HeightBelow(k - 1);
        if rest < h then h else rest
    }

    /** A tree grown `depth` levels is at most `depth + 1` edges high. */
    lemma {:induction false} GrownHeight(depth: int, next: FullGameState -> seq<FullGameState>)
      requires Valid() && Grown(depth, next)
      ensures Height() <= if depth < 0 then 0 else depth + 1
      decreases Repr
    {
      if depth >= 0 {
        forall i | 0 <= i < |children| ensures 1 + children[i].Height() <= depth + 1 {
          assert Built(children[i], this, next(value)[i], depth, next);
          children[i].GrownHeight(depth - 1, next);
        }
        HeightBelowBound(|children|, depth + 1);
      }
    }

    lemma {:induction false} HeightBelowBound(k: int, bound: int)
      requires Valid() && 0 <= k <= |children|
      requires forall i :: 0 <= i < k ==> 1 + children[i].Height() <= bound
      ensures k > 0 ==> HeightBelow(k) <= bound
    {
      if k > 1 {
        HeightBelowBound(k - 1, bound);
      }
    }

    /** Grown from a dealt state, every node of the tree holds a dealt state. */
    lemma {:induction false} GrownDealt(depth: int)
      requires Valid() && Grown(depth, NextStates) && Dealt(value)
      ensures forall n :: n in Repr ==> Dealt(n.value)
      decreases Repr
    {
      forall n | n in Repr ensures Dealt(n.value) {
        if n != this {
          ReprOfMembers(children, n);
          var i :| 0 <= i < |children| && n in children[i].Repr;
          assert depth >= 0;
          var next := NextStates(value);
          assert Built(children[i], this, next[i], depth, NextStates);
          NextStatesDealt(value, children[i].value);
          children[i].GrownDealt(depth - 1);
        }
      }
    }

    /** A node is gathered exactly when one of the subtrees holds it. */
    static lemma {:induction false} ReprOfMembers(nodes: seq<GameStateTreeNode>, x: GameStateTreeNode)
      ensures x in ReprOf(nodes) <==> exists i :: 0 <= i < |nodes| && x in nodes[i].Repr
    {
      if nodes != [] {
        var init := nodes[..|nodes| - 1];
        ReprOfMembers(init, x);
        assert forall i :: 0 <= i < |init| ==> init[i] == nodes[i];
      }
    }

    /** The `k`-th child's subtree shares no node with the earlier ones. */
    lemma DisjointFromEarlier(k: int)
      requires Valid() && 0 <= k < |children|
      ensures ReprOf(children[..k]) !! children[k].Repr
    {
      DisjointFromPrefix(children, k, children[k]);
    }

    static lemma {:induction false} DisjointFromPrefix(nodes: seq<GameStateTreeNode>, k: int, node: GameStateTreeNode)
      requires 0 <= k <= |nodes|
      requires forall i :: 0 <= i < k ==> nodes[i].Repr !! node.Repr
      ensures ReprOf(nodes[..k]) !! node.Repr
    {
      if k > 0 {
        DisjointFromPrefix(nodes, k - 1, node);
        assert nodes[..k][..k - 1] == nodes[..k - 1];
      }
    }
  }
}
