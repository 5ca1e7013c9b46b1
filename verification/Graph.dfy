/**
 The computation graph of the DBCGO optimiser: operators, edges, and the two
 maps `inEdges` / `outEdges` that every graph keeps side by side.

 A node of the graph is a key of `inEdges`.  Sources with a guid of at most
 GUID_PRESERVED (graph inputs and weight tensors) are never nodes.
 */
module Graphs {

  const GUID_INVALID := 0
  const GUID_INPUT := 10
  const GUID_WEIGHT := 11
  const GUID_PRESERVED := 19

  const OP_INPUT := 0
  const OP_WEIGHT := 1

  /** An operator: its unique id, its type code, its arity and its integer parameters. */
  datatype Op = Op(guid: int, kind: int, numInputs: nat, params: map<int, int>)

  datatype Edge = Edge(srcOp: Op, dstOp: Op, srcIdx: int, dstIdx: int)

  type EdgeMap = map<Op, set<Edge>>

  predicate Reserved(op: Op) {
    op.guid <= GUID_PRESERVED
  }

  /** What `OpMap.__getitem__` returns: a missing key reads as the empty set. */
  function Get(m: EdgeMap, op: Op): set<Edge> {
    if op in m then m[op] else {}
  }

  /** The effect of `OpMap.__getitem__` on the map: a missing key is inserted. */
  function Touch(m: EdgeMap, op: Op): EdgeMap {
    if op in m then m else m[op := {}]
  }

  /** Every edge is filed under its own destination in `ins` and its own source in `outs`, and nowhere else. */
  ghost predicate Mirror(ins: EdgeMap, outs: EdgeMap) {
    && Keyed(ins)
    && (forall n, e :: n in outs && e in outs[n] ==> e.srcOp == n)
    && (forall e: Edge :: e in Get(ins, e.dstOp) <==> e in Get(outs, e.srcOp))
  }

  ghost predicate Keyed(ins: EdgeMap) {
    forall n, e :: n in ins && e in ins[n] ==> e.dstOp == n
  }

  /** Two maps hold the same edges; they may differ in keys that hold nothing. */
  ghost predicate SameEdges(m: EdgeMap, m': EdgeMap) {
    forall op :: Get(m, op) == Get(m', op)
  }

  ghost predicate NodesAreNotReserved(ins: EdgeMap) {
    forall n :: n in ins ==> !Reserved(n)
  }

  // ---------------------------------------------------------------------
  // Mirror is kept by every edit of the graph
  // ---------------------------------------------------------------------

  datatype Net = Net(ins: EdgeMap, outs: EdgeMap)

  datatype Edit = AddEdge(e: Edge) | RemoveEdge(e: Edge) | RemoveNode(op: Op)

  function Insert(m: EdgeMap, op: Op, e: Edge): EdgeMap {
    m[op := Get(m, op) + {e}]
  }

  function Delete(m: EdgeMap, op: Op, e: Edge): EdgeMap {
    m[op := Get(m, op) - {e}]
  }

  /** All of `dead` taken out of every edge set. */
  function Without(m: EdgeMap, dead: set<Edge>): EdgeMap {
    map n | n in m :: m[n] - dead
  }

  function Added(g: Net, e: Edge): Net {
    Net(Insert(g.ins, e.dstOp, e), Insert(g.outs, e.srcOp, e))
  }

  /** `remove_edge` raises unless the edge is there. */
  predicate CanRemoveEdge(g: Net, e: Edge) {
    e.srcOp in g.outs && e.dstOp in g.ins && e in g.outs[e.srcOp] && e in g.ins[e.dstOp]
  }

  function EdgeRemoved(g: Net, e: Edge): Net {
    Net(Delete(g.ins, e.dstOp, e), Delete(g.outs, e.srcOp, e))
  }

  /** `remove_node` asserts that the node is filed in outEdges and feeds nobody. */
  predicate CanRemoveNode(g: Net, op: Op) {
    op in g.outs && g.outs[op] == {}
  }

  function NodeRemoved(g: Net, op: Op): Net {
    Net(g.ins - {op}, Without(g.outs, Get(g.ins, op)) - {op})
  }

  /** One edit; an edit whose assertion fails leaves the graph as it was. */
  function Apply(g: Net, c: Edit): Net {
    match c
    case AddEdge(e) => Added(g, e)
    case RemoveEdge(e) => if CanRemoveEdge(g, e) then EdgeRemoved(g, e) else g
    case RemoveNode(op) => if CanRemoveNode(g, op) then NodeRemoved(g, op) else g
  }

  function Run(g: Net, cs: seq<Edit>): Net
    decreases |cs|
  {
    if cs == [] then g else Run(Apply(g, cs[0]), cs[1..])
  }

  lemma WithoutOneMore(outs: EdgeMap, dead: set<Edge>, e: Edge)
    requires forall n, f :: n in outs && f in outs[n] ==> f.srcOp == n
    requires e.srcOp in outs
    ensures Delete(Without(outs, dead), e.srcOp, e) == Without(outs, dead + {e})
  {
    var m, m' := Delete(Without(outs, dead), e.srcOp, e), Without(outs, dead + {e});
    assert m.Keys == m'.Keys;
    forall n | n in outs ensures m[n] == m'[n] {
      if n != e.srcOp { assert e !in outs[n]; }
    }
  }

  lemma TouchThenInsert(m: EdgeMap, op: Op, e: Edge)
    ensures op in Touch(m, op) && Touch(m, op)[op := Touch(m, op)[op] + {e}] == Insert(m, op, e)
  {
  }

  lemma DeleteFrom(m: EdgeMap, op: Op, s: set<Edge>, e: Edge)
    ensures Delete(m[op := s], op, e) == m[op := s - {e}]
  {
  }

  lemma AddKeepsMirror(g: Net, e: Edge)
    requires Mirror(g.ins, g.outs)
    ensures var g' := Added(g, e); Mirror(g'.ins, g'.outs)
    ensures var g' := Added(g, e);
      forall f: Edge :: f in Get(g'.ins, f.dstOp) <==> f == e || f in Get(g.ins, f.dstOp)
  {
  }

  lemma RemoveEdgeKeepsMirror(g: Net, e: Edge)
    requires Mirror(g.ins, g.outs)
    ensures var g' := EdgeRemoved(g, e); Mirror(g'.ins, g'.outs)
    ensures var g' := EdgeRemoved(g, e);
      forall f: Edge :: f in Get(g'.ins, f.dstOp) <==> f != e && f in Get(g.ins, f.dstOp)
  {
  }

  lemma RemoveNodeKeepsMirror(g: Net, op: Op)
    requires Mirror(g.ins, g.outs) && CanRemoveNode(g, op)
    ensures var g' := NodeRemoved(g, op); Mirror(g'.ins, g'.outs)
    ensures var g' := NodeRemoved(g, op);
      forall f: Edge :: f in Get(g'.ins, f.dstOp) <==> f.dstOp != op && f in Get(g.ins, f.dstOp)
  {
    var g' := NodeRemoved(g, op);
    forall f: Edge
      ensures f in Get(g'.ins, f.dstOp) <==> f.dstOp != op && f in Get(g.ins, f.dstOp)
      ensures f in Get(g'.ins, f.dstOp) <==> f in Get(g'.outs, f.srcOp)
    {
      assert f.srcOp == op ==> f !in Get(g.outs, f.srcOp);
      assert f in Get(g.ins, op) ==> f.dstOp == op;
    }
  }

  /** The mirror holds after any sequence of add_edge, remove_edge and remove_node. */
  lemma {:induction false} MirrorAfterAnyEdits(g: Net, cs: seq<Edit>)
    requires Mirror(g.ins, g.outs)
    ensures Mirror(Run(g, cs).ins, Run(g, cs).outs)
    decreases |cs|
  {
    if cs != [] {
      match cs[0] {
        case AddEdge(e) => AddKeepsMirror(g, e);
        case RemoveEdge(e) => RemoveEdgeKeepsMirror(g, e);
        case RemoveNode(op) => if CanRemoveNode(g, op) { RemoveNodeKeepsMirror(g, op); }
      }
      MirrorAfterAnyEdits(Apply(g, cs[0]), cs[1..]);
    }
  }

  // ---------------------------------------------------------------------
  // Walks, cycles and topological orders
  // ---------------------------------------------------------------------

  /** There is an edge from `a` to `b`. */
  ghost predicate Step(ins: EdgeMap, a: Op, b: Op) {
    exists e :: e in Get(ins, b) && e.srcOp == a
  }

  ghost predicate Walk(ins: EdgeMap, p: seq<Op>) {
    |p| > 0 && forall i :: 0 <= i < |p| - 1 ==> Step(ins, p[i], p[i + 1])
  }

  ghost predicate IsCycle(ins: EdgeMap, p: seq<Op>) {
    |p| > 1 && Walk(ins, p) && p[0] == p[|p| - 1]
  }

  ghost predicate Acyclic(ins: EdgeMap) {
    forall p :: !IsCycle(ins, p)
  }

  /** Every source that is not a reserved id is itself a node. */
  ghost predicate Closed(ins: EdgeMap) {
    forall n, e :: n in ins && e in ins[n] && !Reserved(e.srcOp) ==> e.srcOp in ins
  }

  /** Which sources a worklist loop counts: those that are not reserved, or all but weight tensors. */
  datatype Counting = Unreserved | NonWeight

  predicate Counted(c: Counting, op: Op) {
    match c
    case Unreserved => op.guid > GUID_PRESERVED
    case NonWeight => op.guid != GUID_WEIGHT
  }

  ghost predicate NoDup(s: seq<Op>) {
    forall i, j :: 0 <= i < j < |s| ==> s[i] != s[j]
  }

  /** Each node of `l` comes after all of its counted sources. */
  ghost predicate SourcesFirst(ins: EdgeMap, c: Counting, l: seq<Op>) {
    forall k, e :: 0 <= k < |l| && e in Get(ins, l[k]) && Counted(c, e.srcOp) ==> e.srcOp in l[..k]
  }

  /**
   What the worklist loop computes: a duplicate-free list of nodes, sources
   first, that holds every node all of whose counted sources it holds.
   */
  ghost predicate KahnOrder(ins: EdgeMap, c: Counting, l: seq<Op>) {
    && NoDup(l)
    && (forall n :: n in l ==> n in ins)
    && SourcesFirst(ins, c, l)
    && (forall n {:trigger Blocked(ins, c, l, n)} :: n in ins && n !in l ==> Blocked(ins, c, l, n))
  }

  /** Some counted source of `n` is not in `l`. */
  ghost predicate Blocked(ins: EdgeMap, c: Counting, l: seq<Op>, n: Op) {
    exists e :: e in Get(ins, n) && Counted(c, e.srcOp) && e.srcOp !in l
  }


  /** A topological order of the whole graph. */
  ghost predicate Topological(ins: EdgeMap, l: seq<Op>) {
    && NoDup(l)
    && (forall n :: n in l <==> n in ins)
    && SourcesFirst(ins, Unreserved, l)
  }

  lemma NoDupCardinality(l: seq<Op>, s: set<Op>)
    requires NoDup(l)
    requires forall n :: n in l ==> n in s
    ensures |l| <= |s|
    ensures |l| == |s| <==> (forall n :: n in s ==> n in l)
    decreases |l|
  {
    if l == [] {
      if s != {} {
        var n :| n in s;
        assert n !in l;
      }
    } else {
      var h, t := l[0], l[1..];
      NoDupCardinality(t, s - {h});
      assert forall n :: n in l <==> n == h || n in t;
      assert h in s;
      assert forall n :: n in s - {h} <==> n in s && n != h;
      if forall n :: n in s ==> n in l {
        assert forall n :: n in s - {h} ==> n in t;
      } else {
        var n :| n in s && n !in l;
        assert n in s - {h} && n !in t;
      }
    }
  }

  /** A walk that ends in a topologically ordered list stays in it and moves strictly right. */
  lemma {:induction false} WalkClimbs(ins: EdgeMap, l: seq<Op>, p: seq<Op>, j: nat)
    requires SourcesFirst(ins, Unreserved, l) && NodesAreNotReserved(ins)
    requires |p| > 1 && Walk(ins, p) && !Reserved(p[0])
    requires j < |l| && l[j] == p[|p| - 1]
    ensures p[0] in l[..j]
    decreases |p|
  {
    var q := p[..|p| - 1];
    assert Step(ins, p[|p| - 2], p[|p| - 1]);
    var e :| e in Get(ins, p[|p| - 1]) && e.srcOp == p[|p| - 2];
    if |q| == 1 {
      assert e.srcOp == p[0];
    } else {
      assert Step(ins, p[|p| - 3], p[|p| - 2]);
      assert p[|p| - 2] in ins;
      assert e.srcOp in l[..j];
      var i :| 0 <= i < j && l[i] == p[|p| - 2];
      assert forall k :: 0 <= k < |q| - 1 ==> Step(ins, q[k], q[k + 1]) by {
        forall k | 0 <= k < |q| - 1 ensures Step(ins, q[k], q[k + 1]) {
          assert Step(ins, p[k], p[k + 1]);
        }
      }
      WalkClimbs(ins, l, q, i);
      assert p[0] in l[..i] && l[..i] <= l[..j];
    }
  }

  lemma TopologicalMeansAcyclic(ins: EdgeMap, l: seq<Op>)
    requires Topological(ins, l) && NodesAreNotReserved(ins)
    ensures Acyclic(ins)
  {
    forall p | IsCycle(ins, p) ensures false {
      assert Step(ins, p[|p| - 2], p[|p| - 1]);
      assert p[0] in ins;
      var j :| 0 <= j < |l| && l[j] == p[0];
      WalkClimbs(ins, l, p, j);
    }
  }

  ghost predicate HasPred(ins: EdgeMap, r: set<Op>, n: Op) {
    exists m :: m in r && Step(ins, m, n)
  }

  /** A walk backwards of any length exists inside a set whose members all have a predecessor in it. */
  lemma {:induction false} BackwardWalk(ins: EdgeMap, r: set<Op>, len: nat) returns (p: seq<Op>)
    requires r != {} && len > 0
    requires forall n {:trigger HasPred(ins, r, n)} :: n in r ==> HasPred(ins, r, n)
    ensures |p| == len && Walk(ins, p) && forall n :: n in p ==> n in r
    decreases len
  {
    if len == 1 {
      var n :| n in r;
      p := [n];
    } else {
      var q := BackwardWalk(ins, r, len - 1);
      assert q[0] in r && HasPred(ins, r, q[0]);
      var m :| m in r && Step(ins, m, q[0]);
      p := [m] + q;
      forall i | 0 <= i < |p| - 1 ensures Step(ins, p[i], p[i + 1]) {
        if i > 0 { assert p[i] == q[i - 1] && p[i + 1] == q[i]; }
      }
    }
  }

  lemma RepeatedElement(p: seq<Op>, r: set<Op>)
    requires |p| > |r|
    requires forall n :: n in p ==> n in r
    ensures exists i, j :: 0 <= i < j < |p| && p[i] == p[j]
  {
    if NoDup(p) { NoDupCardinality(p, r); }
  }

  /** A non-empty set closed under "has a predecessor in it" contains a cycle. */
  lemma NoSourceMeansCycle(ins: EdgeMap, r: set<Op>)
    requires r != {}
    requires forall n {:trigger HasPred(ins, r, n)} :: n in r ==> HasPred(ins, r, n)
    ensures !Acyclic(ins)
  {
    var p := BackwardWalk(ins, r, |r| + 1);
    RepeatedElement(p, r);
    var i, j :| 0 <= i < j < |p| && p[i] == p[j];
    var c := p[i..j + 1];
    forall k | 0 <= k < |c| - 1 ensures Step(ins, c[k], c[k + 1]) {
      assert c[k] == p[i + k] && c[k + 1] == p[i + k + 1];
    }
    assert IsCycle(ins, c);
  }

  /** The worklist reaches every node exactly when the graph is closed and acyclic. */
  lemma KahnIsExact(ins: EdgeMap, l: seq<Op>)
    requires NodesAreNotReserved(ins)
    requires KahnOrder(ins, Unreserved, l)
    ensures |l| <= |ins|
    ensures |l| == |ins| <==> Closed(ins) && Acyclic(ins)
    ensures |l| == |ins| ==> Topological(ins, l)
  {
    NoDupCardinality(l, ins.Keys);
    if |l| == |ins| {
      assert forall n :: n in ins.Keys ==> n in l;
      forall n, e | n in ins && e in ins[n] && !Reserved(e.srcOp) ensures e.srcOp in ins {
        var k :| 0 <= k < |l| && l[k] == n;
        assert e in Get(ins, l[k]);
      }
      TopologicalMeansAcyclic(ins, l);
    } else if Closed(ins) {
      var r := set n | n in ins && n !in l;
      assert r != {} by {
        var n :| n in ins.Keys && n !in l;
        assert n in r;
      }
      forall n | n in r ensures HasPred(ins, r, n) {
        assert Blocked(ins, Unreserved, l, n);
        var e :| e in Get(ins, n) && Counted(Unreserved, e.srcOp) && e.srcOp !in l;
        assert e.srcOp in r && Step(ins, e.srcOp, n);
      }
      NoSourceMeansCycle(ins, r);
    }
  }

  /** Any list with sources first can be completed to what the worklist computes. */
  lemma {:induction false} CompleteOrder(ins: EdgeMap, l: seq<Op>) returns (l': seq<Op>)
    requires NoDup(l) && SourcesFirst(ins, Unreserved, l) && forall n :: n in l ==> n in ins
    ensures KahnOrder(ins, Unreserved, l')
    decreases |ins| - |l|
  {
    NoDupCardinality(l, ins.Keys);
    if forall n :: n in ins && n !in l ==> Blocked(ins, Unreserved, l, n) {
      l' := l;
    } else {
      var n :| n in ins && n !in l && !Blocked(ins, Unreserved, l, n);
      var m := l + [n];
      NoDupCardinality(m, ins.Keys);
      forall k, e | 0 <= k < |m| && e in Get(ins, m[k]) && Counted(Unreserved, e.srcOp) ensures e.srcOp in m[..k] {
        assert m[..k] == l[..k];
      }
      l' := CompleteOrder(ins, m);
    }
  }

  /** A closed acyclic graph has a topological order. */
  lemma TopologicalExists(ins: EdgeMap) returns (l: seq<Op>)
    requires NodesAreNotReserved(ins) && Closed(ins) && Acyclic(ins)
    ensures Topological(ins, l)
  {
    l := CompleteOrder(ins, []);
    KahnIsExact(ins, l);
  }

  // ---------------------------------------------------------------------
  // The graph object
  // ---------------------------------------------------------------------

  /** The edges of `s` whose source is counted and not yet processed, the `released` ones left out. */
  ghost function Pending(s: set<Edge>, c: Counting, done: seq<Op>, released: set<Edge>): set<Edge> {
    set e | e in s && Counted(c, e.srcOp) && e.srcOp !in done && e !in released
  }

  /** The counting loop over one in-edge list. */
  method CountCounted(s: set<Edge>, c: Counting) returns (cnt: nat)
    ensures cnt == |Pending(s, c, [], {})|
  {
    cnt := 0;
    var todo := s;
    while todo != {}
      invariant todo <= s
      invariant cnt == |Pending(s - todo, c, [], {})|
      decreases |todo|
    {
      var e :| e in todo;
      assert s - (todo - {e}) == (s - todo) + {e};
      assert Pending((s - todo) + {e}, c, [], {}) ==
             Pending(s - todo, c, [], {}) + (if Counted(c, e.srcOp) then {e} else {});
      if Counted(c, e.srcOp) { cnt := cnt + 1; }
      todo := todo - {e};
    }
    assert s - todo == s;
  }

  /** The inner loop: each edge of the current node is released, and a node with none left is listed. */
  method ReleaseEdges(ins: EdgeMap, c: Counting, l0: seq<Op>, i: nat, outList: set<Edge>, todos0: map<Op, int>)
    returns (todos: map<Op, int>, l: seq<Op>)
    requires Keyed(ins) && i < |l0| && Counted(c, l0[i])
    requires TodoCounts(ins, c, l0[..i], {}, todos0)
    requires Listed(ins, todos0, l0) && SourcesFirst(ins, c, l0)
    requires forall e :: e in outList ==> e.srcOp == l0[i] && e.dstOp in ins && e in ins[e.dstOp]
    ensures l0 <= l
    ensures TodoCounts(ins, c, l0[..i], outList, todos)
    ensures Listed(ins, todos, l) && SourcesFirst(ins, c, l)
  {
    todos, l := todos0, l0;
    var rest := outList;
    ghost var released: set<Edge> := {};
    while rest != {}
      invariant l0 <= l
      invariant forall f :: f in outList <==> f in rest || f in released
      invariant forall f :: f in rest ==> f !in released
      invariant TodoCounts(ins, c, l0[..i], released, todos)
      invariant Listed(ins, todos, l)
      invariant SourcesFirst(ins, c, l)
      decreases |rest|
    {
      var e :| e in rest;
      var d := e.dstOp;
      ReleaseOne(ins, c, l0, i, released, todos, e);
      ListOne(ins, todos, l, d);
      rest, released := rest - {e}, released + {e};
      todos := todos[d := todos[d] - 1];
      if todos[d] == 0 {
        AppendKeepsOrder(ins, c, l0, i, released, l, d);
        l := l + [d];
      }
    }
    assert released == outList;
  }

  lemma UnlistedIsBlocked(ins: EdgeMap, c: Counting, l: seq<Op>, todos: map<Op, int>)
    requires TodoCounts(ins, c, l, {}, todos) && Listed(ins, todos, l)
    ensures forall n {:trigger Blocked(ins, c, l, n)} :: n in ins && n !in l ==> Blocked(ins, c, l, n)
  {
    forall n | n in ins && n !in l ensures Blocked(ins, c, l, n) {
      assert Pending(ins[n], c, l, {}) != {};
      var e :| e in Pending(ins[n], c, l, {});
      assert e in Get(ins, n);
    }
  }

  class Graph {
    var inEdges: EdgeMap
    var outEdges: EdgeMap

    ghost predicate Valid()
      reads this
    {
      Mirror(inEdges, outEdges)
    }

    ghost function Value(): Net
      reads this
    {
      Net(inEdges, outEdges)
    }

    constructor ()
      ensures Valid() && Value() == Net(map[], map[])
    {
      inEdges, outEdges := map[], map[];
    }

    method Add(e: Edge)
      requires Valid()
      modifies this
      ensures Valid()
      ensures inEdges == Insert(old(inEdges), e.dstOp, e) && outEdges == Insert(old(outEdges), e.srcOp, e)
    {
      AddKeepsMirror(Value(), e);
      TouchThenInsert(inEdges, e.dstOp, e);
      TouchThenInsert(outEdges, e.srcOp, e);
      inEdges, outEdges := Touch(inEdges, e.dstOp), Touch(outEdges, e.srcOp);
      inEdges := inEdges[e.dstOp := inEdges[e.dstOp] + {e}];
      outEdges := outEdges[e.srcOp := outEdges[e.srcOp] + {e}];
    }

    /** Returns false, changing nothing, where the source raises. */
    method Remove(e: Edge) returns (ok: bool)
      requires Valid()
      modifies this
      ensures Valid() && Value() == Apply(old(Value()), RemoveEdge(e))
      ensures ok <==> CanRemoveEdge(old(Value()), e)
      ensures ok <==> e in old(Get(inEdges, e.dstOp))
    {
      ok := CanRemoveEdge(Net(inEdges, outEdges), e);
      if ok {
        RemoveEdgeKeepsMirror(Value(), e);
        outEdges := outEdges[e.srcOp := outEdges[e.srcOp] - {e}];
        inEdges := inEdges[e.dstOp := inEdges[e.dstOp] - {e}];
      }
    }

    /** Removes a node that feeds nobody, edge by edge. */
    method RemoveNode(op: Op) returns (ok: bool)
      requires Valid()
      modifies this
      ensures Valid() && ok == CanRemoveNode(old(Value()), op)
      ensures Value() == Apply(old(Value()), Edit.RemoveNode(op))
    {
      ok := op in outEdges && outEdges[op] == {};
      if !ok { return; }
      ghost var g := Value();
      RemoveNodeKeepsMirror(g, op);
      inEdges := Touch(inEdges, op);
      var todo := inEdges[op];
      ghost var all, gone: set<Edge> := Get(g.ins, op), {};
      assert Without(g.outs, {}) == g.outs by {
        assert Without(g.outs, {}).Keys == g.outs.Keys;
        assert forall n :: n in g.outs ==> g.outs[n] - {} == g.outs[n];
      }
      while todo != {}
        invariant forall f :: f in all <==> f in todo || f in gone
        invariant op in inEdges && inEdges == g.ins[op := todo]
        invariant outEdges == Without(g.outs, gone)
        invariant Valid()
        decreases |todo|
      {
        var e :| e in todo;
        assert e.dstOp == op && e in g.outs[e.srcOp];
        assert e in Get(inEdges, e.dstOp);
        ghost var before := outEdges;
        var removed := Remove(e);
        assert removed;
        assert outEdges == Delete(before, e.srcOp, e);
        WithoutOneMore(g.outs, gone, e);
        DeleteFrom(g.ins, op, todo, e);
        todo, gone := todo - {e}, gone + {e};
      }
      inEdges := inEdges - {op};
      outEdges := outEdges - {op};
      assert inEdges == g.ins - {op};
      assert gone == all;
    }

    /** The worklist loop shared by has_loop, get_operator_list and preprocess_weights. */
    method Kahn(c: Counting) returns (l: seq<Op>)
      requires Valid()
      requires forall n :: n in inEdges ==> Counted(c, n)
      modifies `outEdges
      ensures Valid() && SameEdges(old(outEdges), outEdges)
      ensures KahnOrder(inEdges, c, l)
    {
      var todos: map<Op, int>;
      todos, l := InitTodos(c);
      var i := 0;
      assert l[..0] == [];
      while i < |l|
        invariant 0 <= i <= |l|
        invariant Valid() && SameEdges(old(outEdges), outEdges)
        invariant TodoCounts(inEdges, c, l[..i], {}, todos)
        invariant Listed(inEdges, todos, l)
        invariant SourcesFirst(inEdges, c, l)
        decreases |inEdges| - i
      {
        NoDupCardinality(l, inEdges.Keys);
        todos, l := Relax(c, todos, l, i);
        i := i + 1;
      }
      assert l[..i] == l;
      UnlistedIsBlocked(inEdges, c, l, todos);
    }

    /** First phase: count every node's sources and list the nodes that have none. */
    method InitTodos(c: Counting) returns (todos: map<Op, int>, l: seq<Op>)
      ensures TodoCounts(inEdges, c, [], {}, todos)
      ensures Listed(inEdges, todos, l)
      ensures SourcesFirst(inEdges, c, l)
    {
      todos, l := map[], [];
      var rest := inEdges.Keys;
      while rest != {}
        invariant rest <= inEdges.Keys && todos.Keys == inEdges.Keys - rest
        invariant NoDup(l)
        invariant forall n :: n in todos ==> todos[n] == |Pending(inEdges[n], c, [], {})|
        invariant forall n :: n in l <==> n in todos && todos[n] == 0
        decreases |rest|
      {
        var op :| op in rest;
        var cnt := CountCounted(inEdges[op], c);
        todos := todos[op := cnt];
        if cnt == 0 { l := l + [op]; }
        rest := rest - {op};
      }
      forall k | 0 <= k < |l| ensures forall e :: e in Get(inEdges, l[k]) ==> !Counted(c, e.srcOp) {
        assert l[k] in l;
        assert forall e :: e in inEdges[l[k]] && Counted(c, e.srcOp) ==> e in Pending(inEdges[l[k]], c, [], {});
      }
    }

    /** Second phase, one round: the i-th listed node releases its out-edges. */
    method Relax(c: Counting, todos0: map<Op, int>, l0: seq<Op>, i: nat)
      returns (todos: map<Op, int>, l: seq<Op>)
      requires Valid()
      requires forall n :: n in inEdges ==> Counted(c, n)
      requires i < |l0|
      requires TodoCounts(inEdges, c, l0[..i], {}, todos0)
      requires Listed(inEdges, todos0, l0)
      requires SourcesFirst(inEdges, c, l0)
      modifies `outEdges
      ensures Valid() && SameEdges(old(outEdges), outEdges)
      ensures l0 <= l
      ensures TodoCounts(inEdges, c, l[..i + 1], {}, todos)
      ensures Listed(inEdges, todos, l)
      ensures SourcesFirst(inEdges, c, l)
    {
      var op := l0[i];
      assert op in l0;
      TouchKeepsMirror(inEdges, outEdges, op);
      outEdges := Touch(outEdges, op);
      todos, l := ReleaseEdges(inEdges, c, l0, i, outEdges[op], todos0);
      assert l[..i + 1] == l0[..i] + [op] by { assert l[i] == op && l[..i] == l0[..i]; }
      ReleaseAll(inEdges, outEdges, c, l0[..i], op, todos);
    }

    /** True when some node is never released: a cycle, or a source that is not in the graph. */
    method HasLoop() returns (r: bool)
      requires Valid() && NodesAreNotReserved(inEdges)
      modifies `outEdges
      ensures Valid() && SameEdges(old(outEdges), outEdges)
      ensures !r <==> Closed(inEdges) && Acyclic(inEdges)
    {
      var l := Kahn(Unreserved);
      KahnIsExact(inEdges, l);
      r := |l| < |inEdges|;
    }

    /**
     The operators to emit, sources first.  `ok` is false where the source's
     closing assertion fails, which is exactly when has_loop is true.
     */
    method GetOperatorList() returns (ok: bool, ops: seq<Op>)
      requires Valid() && NodesAreNotReserved(inEdges)
      modifies `outEdges
      ensures Valid() && SameEdges(old(outEdges), outEdges)
      ensures ok <==> Closed(inEdges) && Acyclic(inEdges)
      ensures ok ==> NoDup(ops)
      ensures ok ==> forall n :: n in ops <==> n in inEdges && Emitted(n)
      ensures ok ==> forall k, e :: 0 <= k < |ops| && e in Get(inEdges, ops[k]) && Emitted(e.srcOp) && !Reserved(e.srcOp)
                                    ==> e.srcOp in ops[..k]
    {
      var l := Kahn(Unreserved);
      KahnIsExact(inEdges, l);
      ops := [];
      var i := 0;
      while i < |l|
        invariant 0 <= i <= |l|
        invariant ops == Emit(l[..i])
      {
        assert l[..i + 1][..i] == l[..i];
        if !(l[i].kind == OP_INPUT || l[i].kind == OP_WEIGHT) { ops := ops + [l[i]]; }
        i := i + 1;
      }
      assert l[..i] == l;
      ok := |l| == |inEdges|;
      EmitKeepsOrder(l);
      if ok {
        forall k, e | 0 <= k < |ops| && e in Get(inEdges, ops[k]) && Emitted(e.srcOp) && !Reserved(e.srcOp)
          ensures e.srcOp in ops[..k]
        {
          var j := EmitPosition(l, k);
          assert e.srcOp in l[..j];
          EmitKeepsOrder(l[..j]);
        }
      }
    }
  }

  predicate Emitted(op: Op) {
    !(op.kind == OP_INPUT || op.kind == OP_WEIGHT)
  }

  /** The list without its input and weight operators. */
  function Emit(l: seq<Op>): seq<Op> {
    if l == [] then []
    else Emit(l[..|l| - 1]) + (if Emitted(l[|l| - 1]) then [l[|l| - 1]] else [])
  }

  lemma {:induction false} EmitKeepsOrder(l: seq<Op>)
    ensures forall n :: n in Emit(l) <==> n in l && Emitted(n)
    ensures NoDup(l) ==> NoDup(Emit(l))
  {
    if l != [] {
      var q, x := l[..|l| - 1], l[|l| - 1];
      EmitKeepsOrder(q);
      assert forall n :: n in l <==> n in q || n == x;
      if NoDup(l) { assert NoDup(q) && x !in q; }
    }
  }

  /** Where the k-th emitted operator sits in the full list, and what precedes it. */
  lemma {:induction false} EmitPosition(l: seq<Op>, k: nat) returns (j: nat)
    requires k < |Emit(l)|
    ensures j < |l| && l[j] == Emit(l)[k] && Emit(l[..j]) == Emit(l)[..k]
  {
    var q := l[..|l| - 1];
    if k < |Emit(q)| {
      j := EmitPosition(q, k);
      assert l[..j] == q[..j];
      assert Emit(l)[..k] == Emit(q)[..k];
    } else {
      j := |l| - 1;
      assert Emit(l)[..k] == Emit(q);
    }
  }

  /** `todos` counts each node's pending sources, the `released` edges left out. */
  ghost predicate TodoCounts(ins: EdgeMap, c: Counting, done: seq<Op>, released: set<Edge>,
                             todos: map<Op, int>)
  {
    todos.Keys == ins.Keys
    && forall n :: n in ins ==> todos[n] == |Pending(ins[n], c, done, released)|
  }

  /** `l` lists, once each, the nodes with nothing pending. */
  ghost predicate Listed(ins: EdgeMap, todos: map<Op, int>, l: seq<Op>)
    requires todos.Keys == ins.Keys
  {
    NoDup(l) && forall n :: n in l <==> n in ins && todos[n] == 0
  }

  lemma ListOne(ins: EdgeMap, todos: map<Op, int>, l: seq<Op>, d: Op)
    requires todos.Keys == ins.Keys && Listed(ins, todos, l)
    requires d in ins && todos[d] > 0
    ensures todos[d] > 1 ==> Listed(ins, todos[d := todos[d] - 1], l)
    ensures todos[d] == 1 ==> Listed(ins, todos[d := todos[d] - 1], l + [d])
  {
    assert d !in l;
  }

  lemma TouchKeepsMirror(ins: EdgeMap, outs: EdgeMap, op: Op)
    requires Mirror(ins, outs)
    ensures Mirror(ins, Touch(outs, op)) && SameEdges(outs, Touch(outs, op))
    ensures forall e :: e in Touch(outs, op)[op] ==> e.srcOp == op && e.dstOp in ins && e in ins[e.dstOp]
  {
    forall e | e in Get(outs, op) ensures e.srcOp == op && e.dstOp in ins && e in ins[e.dstOp] {
      assert e in Get(outs, e.srcOp) && e in Get(ins, e.dstOp);
    }
  }

  lemma ReleaseOne(ins: EdgeMap, c: Counting, l0: seq<Op>, i: nat, released: set<Edge>,
                   todos: map<Op, int>, e: Edge)
    requires i < |l0| && NoDup(l0) && Keyed(ins)
    requires TodoCounts(ins, c, l0[..i], released, todos)
    requires e.srcOp == l0[i] && Counted(c, l0[i]) && e !in released
    requires e.dstOp in ins && e in ins[e.dstOp]
    ensures todos[e.dstOp] > 0
    ensures TodoCounts(ins, c, l0[..i], released + {e}, todos[e.dstOp := todos[e.dstOp] - 1])
  {
    var p := Pending(ins[e.dstOp], c, l0[..i], released);
    assert e in p;
    assert Pending(ins[e.dstOp], c, l0[..i], released + {e}) == p - {e};
    forall n | n in ins && n != e.dstOp
      ensures Pending(ins[n], c, l0[..i], released + {e}) == Pending(ins[n], c, l0[..i], released)
    {
      assert e !in ins[n];
    }
  }

  lemma ReleaseAll(ins: EdgeMap, outs: EdgeMap, c: Counting, done: seq<Op>, op: Op, todos: map<Op, int>)
    requires Mirror(ins, outs) && op in outs
    requires TodoCounts(ins, c, done, outs[op], todos)
    ensures TodoCounts(ins, c, done + [op], {}, todos)
  {
    forall n | n in ins
      ensures Pending(ins[n], c, done + [op], {}) == Pending(ins[n], c, done, outs[op])
    {
      forall f | f in ins[n] ensures f in outs[op] <==> f.srcOp == op {
        assert f in Get(ins, f.dstOp) && f in Get(outs, f.srcOp);
      }
    }
  }

  lemma AppendKeepsOrder(ins: EdgeMap, c: Counting, l0: seq<Op>, i: nat, released: set<Edge>,
                         l: seq<Op>, d: Op)
    requires i < |l0| && l0 <= l && d in ins
    requires forall e :: e in released ==> e.srcOp == l0[i]
    requires SourcesFirst(ins, c, l)
    requires |Pending(ins[d], c, l0[..i], released)| == 0
    ensures SourcesFirst(ins, c, l + [d])
  {
    var l' := l + [d];
    forall k, e | 0 <= k < |l'| && e in Get(ins, l'[k]) && Counted(c, e.srcOp) ensures e.srcOp in l'[..k] {
      if k < |l| {
        assert l'[..k] == l[..k];
      } else {
        assert e !in Pending(ins[d], c, l0[..i], released);
        if e in released {
          assert l'[..k][i] == e.srcOp;
        } else {
          var q :| 0 <= q < i && l0[q] == e.srcOp;
          assert l'[..k][q] == e.srcOp;
        }
      }
    }
  }
}
