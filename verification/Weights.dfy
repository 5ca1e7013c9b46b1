/**
 Weight pruning: `preprocess_weights` drops the operators that compute on weight
 tensors alone and whose results reach no operator that depends on data.
 */
module WeightPruning {
  import opened Graphs

  /** Cloning through add_edge keeps exactly the nodes that have an in-edge. */
  function Populated(ins: EdgeMap): EdgeMap {
    map n | n in ins && ins[n] != {} :: ins[n]
  }

  /** `n` reads directly from something that is neither a weight tensor nor a node. */
  ghost predicate ReadsData(ins: EdgeMap, n: Op) {
    exists e :: e in Get(ins, n) && e.srcOp.guid != GUID_WEIGHT && e.srcOp !in ins
  }

  ghost predicate DataWalk(ins: EdgeMap, p: seq<Op>, n: Op) {
    Walk(ins, p) && ReadsData(ins, p[0]) && p[|p| - 1] == n
  }

  /** No chain of edges leads from a data source to `n`. */
  ghost predicate WeightOnly(ins: EdgeMap, n: Op) {
    n in ins && forall p :: !DataWalk(ins, p, n)
  }

  ghost predicate UsefulWalk(ins: EdgeMap, n: Op, p: seq<Op>) {
    Walk(ins, p) && p[0] == n && p[|p| - 1] in ins && !WeightOnly(ins, p[|p| - 1])
  }

  /** Some node that is not weight-only can be reached from `n` (`n` itself included). */
  ghost predicate Useful(ins: EdgeMap, n: Op) {
    exists p :: UsefulWalk(ins, n, p)
  }

  // ---------------------------------------------------------------------
  // The worklist finds exactly the weight-only nodes
  // ---------------------------------------------------------------------

  /** Walking back from a listed node stays in the list. */
  lemma {:induction false} WalkBackIsListed(ins: EdgeMap, l: seq<Op>, p: seq<Op>)
    requires KahnOrder(ins, NonWeight, l) && NodesAreNotReserved(ins)
    requires Walk(ins, p) && p[0] in ins && p[|p| - 1] in l
    ensures p[0] in l
    decreases |p|
  {
    if |p| > 1 {
      assert Step(ins, p[0], p[1]);
      var q := p[1..];
      forall i | 0 <= i < |q| - 1 ensures Step(ins, q[i], q[i + 1]) {
        assert Step(ins, p[i + 1], p[i + 2]);
      }
      WalkBackIsListed(ins, l, q);
      var k :| 0 <= k < |l| && l[k] == p[1];
      var e :| e in Get(ins, p[1]) && e.srcOp == p[0];
      assert e in Get(ins, l[k]) && Counted(NonWeight, e.srcOp);
    }
  }

  lemma ListedReadsNoData(ins: EdgeMap, l: seq<Op>, n: Op)
    requires KahnOrder(ins, NonWeight, l) && n in l
    ensures !ReadsData(ins, n)
  {
    var k :| 0 <= k < |l| && l[k] == n;
    forall e | e in Get(ins, n) && e.srcOp.guid != GUID_WEIGHT ensures e.srcOp in ins {
      assert e in Get(ins, l[k]) && Counted(NonWeight, e.srcOp);
      assert e.srcOp in l;
    }
  }

  lemma ExtendDataWalk(ins: EdgeMap, m: Op, n: Op)
    requires Step(ins, m, n) && n in ins && m in ins && !WeightOnly(ins, m)
    ensures !WeightOnly(ins, n)
  {
    var p :| DataWalk(ins, p, m);
    var q := p + [n];
    forall i | 0 <= i < |q| - 1 ensures Step(ins, q[i], q[i + 1]) {
      if i < |p| - 1 { assert Step(ins, p[i], p[i + 1]); }
    }
    assert DataWalk(ins, q, n);
  }

  lemma ListIsWeightOnly(ins: EdgeMap, l: seq<Op>)
    requires KahnOrder(ins, NonWeight, l) && NodesAreNotReserved(ins) && Acyclic(ins)
    ensures forall n :: n in l <==> WeightOnly(ins, n)
  {
    forall n | n in l ensures WeightOnly(ins, n) {
      forall p ensures !DataWalk(ins, p, n) {
        if Walk(ins, p) && p[0] in ins && p[|p| - 1] == n {
          WalkBackIsListed(ins, l, p);
          ListedReadsNoData(ins, l, p[0]);
        }
      }
    }
    var r := set n | n in ins && n !in l && WeightOnly(ins, n);
    forall n | n in r ensures HasPred(ins, r, n) {
      assert Blocked(ins, NonWeight, l, n);
      var e :| e in Get(ins, n) && Counted(NonWeight, e.srcOp) && e.srcOp !in l;
      assert Step(ins, e.srcOp, n);
      if e.srcOp !in ins {
        assert DataWalk(ins, [n], n);
      } else if !WeightOnly(ins, e.srcOp) {
        ExtendDataWalk(ins, e.srcOp, n);
      } else {
        assert e.srcOp in r;
      }
    }
    if r != {} { NoSourceMeansCycle(ins, r); }
    assert forall n :: n in ins && n !in l && WeightOnly(ins, n) ==> n in r;
  }

  // ---------------------------------------------------------------------
  // Which nodes the removal loop leaves
  // ---------------------------------------------------------------------

  ghost predicate HasSucc(ins: EdgeMap, r: set<Op>, n: Op) {
    exists m :: m in r && Step(ins, n, m)
  }

  lemma {:induction false} ForwardWalk(ins: EdgeMap, r: set<Op>, len: nat) returns (p: seq<Op>)
    requires r != {} && len > 0
    requires forall n {:trigger HasSucc(ins, r, n)} :: n in r ==> HasSucc(ins, r, n)
    ensures |p| == len && Walk(ins, p) && forall n :: n in p ==> n in r
    decreases len
  {
    if len == 1 {
      var n :| n in r;
      p := [n];
    } else {
      var q := ForwardWalk(ins, r, len - 1);
      assert q[|q| - 1] in r && HasSucc(ins, r, q[|q| - 1]);
      var m :| m in r && Step(ins, q[|q| - 1], m);
      p := q + [m];
      forall i | 0 <= i < |p| - 1 ensures Step(ins, p[i], p[i + 1]) {
        if i < |q| - 1 { assert Step(ins, q[i], q[i + 1]); }
      }
    }
  }

  lemma NoSinkMeansCycle(ins: EdgeMap, r: set<Op>)
    requires r != {}
    requires forall n {:trigger HasSucc(ins, r, n)} :: n in r ==> HasSucc(ins, r, n)
    ensures !Acyclic(ins)
  {
    var p := ForwardWalk(ins, r, |r| + 1);
    RepeatedElement(p, r);
    var i, j :| 0 <= i < j < |p| && p[i] == p[j];
    var c := p[i..j + 1];
    forall k | 0 <= k < |c| - 1 ensures Step(ins, c[k], c[k + 1]) {
      assert c[k] == p[i + k] && c[k + 1] == p[i + k + 1];
    }
    assert IsCycle(ins, c);
  }

  /** `kept` can be the node set during removal: only weight-only nodes left, consumers before producers. */
  ghost predicate Pruned(ins: EdgeMap, kept: set<Op>) {
    && kept <= ins.Keys
    && (forall n :: n in ins && n !in kept ==> WeightOnly(ins, n))
    && (forall m, n :: n in kept && m in ins && Step(ins, m, n) ==> m in kept)
  }

  lemma {:induction false} PrunedIsUseless(ins: EdgeMap, kept: set<Op>, p: seq<Op>)
    requires Pruned(ins, kept) && Walk(ins, p) && p[0] in ins && p[0] !in kept
    ensures p[|p| - 1] in ins ==> WeightOnly(ins, p[|p| - 1])
    decreases |p|
  {
    if |p| > 1 {
      assert Step(ins, p[0], p[1]);
      var q := p[1..];
      forall i | 0 <= i < |q| - 1 ensures Step(ins, q[i], q[i + 1]) {
        assert Step(ins, p[i + 1], p[i + 2]);
      }
      PrunedIsUseless(ins, kept, q);
    }
  }

  lemma UsefulItself(ins: EdgeMap, n: Op)
    requires n in ins && !WeightOnly(ins, n)
    ensures Useful(ins, n)
  {
    assert UsefulWalk(ins, n, [n]);
  }

  lemma UsefulBefore(ins: EdgeMap, n: Op, m: Op)
    requires Step(ins, n, m) && Useful(ins, m)
    ensures Useful(ins, n)
  {
    var p :| UsefulWalk(ins, m, p);
    var q := [n] + p;
    forall i | 0 <= i < |q| - 1 ensures Step(ins, q[i], q[i + 1]) {
      if i > 0 { assert Step(ins, p[i - 1], p[i]); }
    }
    assert UsefulWalk(ins, n, q);
  }

  /** When no kept weight-only node is a sink, the kept nodes are exactly the useful ones. */
  lemma KeptIsUseful(ins: EdgeMap, kept: set<Op>)
    requires Acyclic(ins) && Pruned(ins, kept)
    requires forall n {:trigger HasSucc(ins, kept, n)} :: n in kept && WeightOnly(ins, n) ==> HasSucc(ins, kept, n)
    ensures forall n :: n in kept <==> n in ins && Useful(ins, n)
  {
    forall n | n in ins && Useful(ins, n) ensures n in kept {
      var p :| UsefulWalk(ins, n, p);
      if n !in kept { PrunedIsUseless(ins, kept, p); }
    }
    var r := set n | n in kept && !Useful(ins, n);
    forall n | n in r ensures HasSucc(ins, r, n) {
      assert WeightOnly(ins, n) by { if !WeightOnly(ins, n) { UsefulItself(ins, n); } }
      assert HasSucc(ins, kept, n);
      var m :| m in kept && Step(ins, n, m);
      assert !Useful(ins, m) by { if Useful(ins, m) { UsefulBefore(ins, n, m); } }
      assert m in r;
    }
    if r != {} { NoSinkMeansCycle(ins, r); }
    assert forall n :: n in kept && !Useful(ins, n) ==> n in r;
  }

  // ---------------------------------------------------------------------
  // The method
  // ---------------------------------------------------------------------

  /** Step 1: rebuild the graph edge by edge. */
  method Clone(g: Graph) returns (h: Graph)
    requires g.Valid()
    ensures fresh(h) && h.Valid() && h.inEdges == Populated(g.inEdges)
  {
    h := new Graph();
    var rest := g.inEdges.Keys;
    while rest != {}
      invariant fresh(h) && h.Valid() && rest <= g.inEdges.Keys
      invariant h.inEdges.Keys == (set n | n in g.inEdges && n !in rest && g.inEdges[n] != {})
      invariant forall n :: n in h.inEdges ==> h.inEdges[n] == g.inEdges[n]
      decreases |rest|
    {
      var op :| op in rest;
      CloneNode(h, op, g.inEdges[op]);
      rest := rest - {op};
    }
  }

  /** The edges copied so far for one node. */
  function CloneState(m: EdgeMap, op: Op, copied: set<Edge>): EdgeMap {
    if copied == {} then m else m[op := copied]
  }

  lemma CloneOne(m: EdgeMap, op: Op, copied: set<Edge>, e: Edge)
    requires op !in m
    ensures Insert(CloneState(m, op, copied), op, e) == CloneState(m, op, copied + {e})
  {
    assert Get(CloneState(m, op, copied), op) == copied;
  }

  method CloneNode(h: Graph, op: Op, s: set<Edge>)
    requires h.Valid() && op !in h.inEdges
    requires forall e :: e in s ==> e.dstOp == op
    modifies h
    ensures h.Valid()
    ensures h.inEdges == if s == {} then old(h.inEdges) else old(h.inEdges)[op := s]
  {
    var todo := s;
    ghost var copied: set<Edge> := {};
    while todo != {}
      invariant h.Valid()
      invariant forall f :: f in s <==> f in todo || f in copied
      invariant h.inEdges == CloneState(old(h.inEdges), op, copied)
      decreases |todo|
    {
      var e :| e in todo;
      CloneOne(old(h.inEdges), op, copied, e);
      h.Add(e);
      todo, copied := todo - {e}, copied + {e};
    }
    assert copied == s;
  }

  /** The nodes left are the useful ones, each with its in-edges untouched. */
  method PreprocessWeights(g: Graph) returns (h: Graph)
    requires g.Valid() && NodesAreNotReserved(g.inEdges) && Acyclic(Populated(g.inEdges))
    ensures fresh(h) && h.Valid()
    ensures forall n :: n in h.inEdges <==> n in Populated(g.inEdges) && Useful(Populated(g.inEdges), n)
    ensures forall n :: n in h.inEdges ==> h.inEdges[n] == g.inEdges[n]
  {
    h := Clone(g);
    ghost var ins := h.inEdges;
    var l := h.Kahn(NonWeight);
    ListIsWeightOnly(ins, l);
    RemoveSinks(h, l);
    KeptIsUseful(ins, h.inEdges.Keys);
  }

  /** The closing loop: as long as a listed node feeds nobody, remove it. */
  method RemoveSinks(h: Graph, l: seq<Op>)
    requires h.Valid()
    requires forall n :: n in l <==> WeightOnly(h.inEdges, n)
    modifies h
    ensures h.Valid() && Pruned(old(h.inEdges), h.inEdges.Keys)
    ensures forall n :: n in h.inEdges ==> h.inEdges[n] == old(h.inEdges)[n]
    ensures forall n {:trigger HasSucc(old(h.inEdges), h.inEdges.Keys, n)} ::
      n in h.inEdges && WeightOnly(old(h.inEdges), n) ==> HasSucc(old(h.inEdges), h.inEdges.Keys, n)
  {
    ghost var ins := h.inEdges;
    var cand := set n | n in h.inEdges && n in l && Get(h.outEdges, n) == {};
    while cand != {}
      invariant h.Valid()
      invariant Pruned(ins, h.inEdges.Keys)
      invariant forall n :: n in h.inEdges ==> h.inEdges[n] == ins[n]
      invariant cand == set n | n in h.inEdges && n in l && Get(h.outEdges, n) == {}
      decreases |h.inEdges|
    {
      var op :| op in cand;
      RemoveSink(h, op, ins);
      cand := set n | n in h.inEdges && n in l && Get(h.outEdges, n) == {};
    }
    assert forall n :: n in h.inEdges && n in l && Get(h.outEdges, n) == {} ==> n in cand;
    SinksGone(ins, h.inEdges, h.outEdges, l);
  }

  method RemoveSink(h: Graph, op: Op, ghost ins: EdgeMap)
    requires h.Valid() && op in h.inEdges && Get(h.outEdges, op) == {}
    requires Pruned(ins, h.inEdges.Keys) && WeightOnly(ins, op)
    requires forall n :: n in h.inEdges ==> h.inEdges[n] == ins[n]
    modifies h
    ensures h.Valid() && h.inEdges == old(h.inEdges) - {op}
    ensures Pruned(ins, h.inEdges.Keys) && |h.inEdges| < |old(h.inEdges)|
  {
    TouchKeepsMirror(h.inEdges, h.outEdges, op);
    SinkHasNoStep(h.inEdges, h.outEdges, op);
    RemovalKeepsPruned(ins, h.inEdges, op);
    h.outEdges := Touch(h.outEdges, op);
    var ok := h.RemoveNode(op);
    assert ok;
    assert h.inEdges.Keys == old(h.inEdges).Keys - {op};
  }

  lemma SinksGone(ins: EdgeMap, cur: EdgeMap, outs: EdgeMap, l: seq<Op>)
    requires Mirror(cur, outs) && cur.Keys <= ins.Keys
    requires forall n :: n in cur ==> cur[n] == ins[n]
    requires forall n :: n in l <==> WeightOnly(ins, n)
    requires forall n :: n in cur && n in l ==> Get(outs, n) != {}
    ensures forall n {:trigger HasSucc(ins, cur.Keys, n)} ::
      n in cur && WeightOnly(ins, n) ==> HasSucc(ins, cur.Keys, n)
  {
    forall n | n in cur && WeightOnly(ins, n) ensures HasSucc(ins, cur.Keys, n) {
      assert n in l;
      var e :| e in Get(outs, n);
      assert e in Get(outs, e.srcOp) && e in Get(cur, e.dstOp);
      assert e in Get(ins, e.dstOp) && Step(ins, n, e.dstOp);
    }
  }

  lemma SinkHasNoStep(ins: EdgeMap, outs: EdgeMap, op: Op)
    requires Mirror(ins, outs) && Get(outs, op) == {}
    ensures forall n :: !Step(ins, op, n)
  {
    forall e: Edge | e in Get(ins, e.dstOp) ensures e.srcOp != op {
      assert e in Get(outs, e.srcOp);
    }
  }

  lemma RemovalKeepsPruned(ins: EdgeMap, cur: EdgeMap, op: Op)
    requires Pruned(ins, cur.Keys) && op in cur && WeightOnly(ins, op)
    requires forall n :: n in cur ==> cur[n] == ins[n]
    requires forall n :: !Step(cur, op, n)
    ensures Pruned(ins, (cur - {op}).Keys)
  {
    forall n | n in cur ensures !Step(ins, op, n) {
      assert !Step(cur, op, n);
    }
  }
}
