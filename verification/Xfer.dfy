/**
 The rewriter object GraphXfer: matching a rule's source pattern by recursive
 backtracking, checking that outputs read outside the match are mapped, and
 building the new graph.
 */
module Xfers {
  import opened Graphs
  import opened Rules
  import opened Rewrites

  // ---------------------------------------------------------------------
  // create_new_graph
  // ---------------------------------------------------------------------

  /** The rewired in-edges, where every matched source has a replacement. */
  ghost function RewiredSet(r: Rule, s: Site, es: set<Edge>): set<Edge>
    requires forall t :: t in r.outs ==> r.outs[t].0 < |s.d|
    requires forall e :: e in es && e.srcOp in s.pos ==> (s.pos[e.srcOp], e.srcIdx) in r.outs
  {
    set e | e in es :: Rewired(r, s, e)
  }

  lemma RewireOneMore(r: Rule, s: Site, es: set<Edge>, e: Edge)
    requires forall t :: t in r.outs ==> r.outs[t].0 < |s.d|
    requires forall f :: f in es + {e} && f.srcOp in s.pos ==> (s.pos[f.srcOp], f.srcIdx) in r.outs
    ensures RewiredSet(r, s, es + {e}) == RewiredSet(r, s, es) + {Rewired(r, s, e)}
  {
  }

  /** Step 2 for one kept operator: unmatched sources are copied, matched ones replaced. */
  method AddKept(h: Graph, r: Rule, s: Site, n: Op, es: set<Edge>)
    requires h.Valid() && n !in h.inEdges
    requires forall t :: t in r.outs ==> r.outs[t].0 < |s.d|
    requires forall e :: e in es ==> e.dstOp == n
    requires forall e :: e in es && e.srcOp in s.pos ==> (s.pos[e.srcOp], e.srcIdx) in r.outs
    modifies h
    ensures h.Valid()
    ensures h.inEdges == Filed(old(h.inEdges), n, RewiredSet(r, s, es))
  {
    var todo := es;
    ghost var done: set<Edge> := {};
    assert RewiredSet(r, s, {}) == {};
    while todo != {}
      invariant h.Valid()
      invariant forall f :: f in es <==> f in todo || f in done
      invariant h.inEdges == Filed(old(h.inEdges), n, RewiredSet(r, s, done))
      decreases |todo|
    {
      var e :| e in todo;
      h.Add(Rewired(r, s, e));
      FileOneMore(old(h.inEdges), n, RewiredSet(r, s, done), Rewired(r, s, e));
      RewireOneMore(r, s, done, e);
      todo, done := todo - {e}, done + {e};
    }
    assert done == es;
  }

  /** `m` with the edges `es` filed under `n`; a node appears with its first edge. */
  function Filed(m: EdgeMap, n: Op, es: set<Edge>): EdgeMap {
    if es == {} then m else m[n := es]
  }

  lemma FileOneMore(m: EdgeMap, n: Op, es: set<Edge>, e: Edge)
    requires n !in m
    ensures Insert(Filed(m, n, es), n, e) == Filed(m, n, es + {e})
  {
    assert {} + {e} == {e};
  }

  ghost function NewEdgesUpTo(r: Rule, s: Site, j: nat, n: nat): set<Edge>
    requires InOrder(r.dst) && |s.d| == |r.dst| && j < |r.dst| && n <= |r.dst[j].inputs|
    requires forall k :: 0 <= k < n && r.dst[j].inputs[k].Ext? ==> r.dst[j].inputs[k].id in s.bind
  {
    set k | 0 <= k < n :: NewEdge(r, s, j, k)
  }

  /** Step 3 for one created operator: one edge per input. */
  method AddCreated(h: Graph, r: Rule, s: Site, j: nat)
    requires InOrder(r.dst) && |s.d| == |r.dst| && j < |r.dst|
    requires forall k :: 0 <= k < |r.dst[j].inputs| && r.dst[j].inputs[k].Ext? ==> r.dst[j].inputs[k].id in s.bind
    requires h.Valid() && s.d[j] !in h.inEdges
    modifies h
    ensures h.Valid()
    ensures h.inEdges == Filed(old(h.inEdges), s.d[j], NewEdgesUpTo(r, s, j, |r.dst[j].inputs|))
  {
    assert NewEdgesUpTo(r, s, j, 0) == {};
    for k := 0 to |r.dst[j].inputs|
      invariant h.Valid()
      invariant h.inEdges == Filed(old(h.inEdges), s.d[j], NewEdgesUpTo(r, s, j, k))
    {
      h.Add(NewEdge(r, s, j, k));
      FileOneMore(old(h.inEdges), s.d[j], NewEdgesUpTo(r, s, j, k), NewEdge(r, s, j, k));
      assert NewEdgesUpTo(r, s, j, k + 1) == NewEdgesUpTo(r, s, j, k) + {NewEdge(r, s, j, k)};
    }
  }

  /** Builds the rewritten graph; the lookups it makes in mappedOutputs and mappedInputs never miss. */
  method CreateNewGraph(g: Graph, r: Rule, s: Site) returns (h: Graph)
    requires g.Valid() && ValidSite(r, g.inEdges, s)
    ensures fresh(h) && h.Valid()
    ensures IsRewrite(r, g.inEdges, s, h.inEdges)
  {
    h := new Graph();
    CopyKept(g.inEdges, r, s, h);
    assert forall n :: n in h.inEdges ==> n !in s.d;
    CopyCreated(g.inEdges, r, s, h);
  }

  /** The new graph holds exactly the rewired in-edges of the kept operators among `nodes`. */
  ghost predicate KeptCopied(r: Rule, ins: EdgeMap, s: Site, nodes: set<Op>, res: EdgeMap)
    requires ValidSite(r, ins, s)
  {
    && (forall n :: n in res ==> n in ins && n !in s.pos && n in nodes && res[n] != {})
    && (forall n :: n in ins && n in nodes && n !in s.pos ==> Get(res, n) == KeptEdges(r, ins, s, n))
  }

  method CopyKept(ins: EdgeMap, r: Rule, s: Site, h: Graph)
    requires ValidSite(r, ins, s) && h.Valid() && h.inEdges == map[]
    modifies h
    ensures h.Valid() && KeptCopied(r, ins, s, ins.Keys, h.inEdges)
  {
    var rest := ins.Keys;
    ghost var done: set<Op> := {};
    while rest != {}
      invariant h.Valid()
      invariant forall n :: n in ins <==> n in rest || n in done
      invariant forall n :: n in rest ==> n !in done
      invariant KeptCopied(r, ins, s, done, h.inEdges)
      decreases |rest|
    {
      var n :| n in rest;
      ghost var before := h.inEdges;
      if n !in s.pos {
        AddKept(h, r, s, n, ins[n]);
        KeptOneMore(r, ins, s, done, before, n);
      }
      rest, done := rest - {n}, done + {n};
    }
    assert done == ins.Keys;
  }

  lemma KeptOneMore(r: Rule, ins: EdgeMap, s: Site, done: set<Op>, res: EdgeMap, n: Op)
    requires ValidSite(r, ins, s) && KeptCopied(r, ins, s, done, res)
    requires n in ins && n !in s.pos && n !in done
    ensures KeptCopied(r, ins, s, done + {n}, Filed(res, n, RewiredSet(r, s, ins[n])))
  {
    assert RewiredSet(r, s, ins[n]) == KeptEdges(r, ins, s, n);
  }

  ghost predicate CreatedCopied(r: Rule, ins: EdgeMap, s: Site, j: nat, res: EdgeMap)
    requires ValidSite(r, ins, s) && j <= |s.d|
  {
    && (forall n :: n in res ==> res[n] != {} && (n in s.d[..j] || (n in ins && n !in s.pos)))
    && (forall n :: n in ins && n !in s.pos ==> Get(res, n) == KeptEdges(r, ins, s, n))
    && (forall i :: 0 <= i < j ==> Get(res, s.d[i]) == CreatedEdges(r, ins, s, i))
  }

  method CopyCreated(ins: EdgeMap, r: Rule, s: Site, h: Graph)
    requires ValidSite(r, ins, s) && h.Valid() && KeptCopied(r, ins, s, ins.Keys, h.inEdges)
    modifies h
    ensures h.Valid() && IsRewrite(r, ins, s, h.inEdges)
  {
    for j := 0 to |s.d|
      invariant h.Valid() && CreatedCopied(r, ins, s, j, h.inEdges)
    {
      forall k | 0 <= k < |r.dst[j].inputs| && r.dst[j].inputs[k].Ext? ensures r.dst[j].inputs[k].id in s.bind {
        DstBound(r, ins, s, j, k);
      }
      assert s.d[j] !in s.d[..j] && s.d[j] !in h.inEdges;
      ghost var before := h.inEdges;
      AddCreated(h, r, s, j);
      CreatedOneMore(r, ins, s, j, before);
    }
    assert s.d[..|s.d|] == s.d;
  }

  lemma CreatedOneMore(r: Rule, ins: EdgeMap, s: Site, j: nat, res: EdgeMap)
    requires ValidSite(r, ins, s) && j < |s.d| && CreatedCopied(r, ins, s, j, res)
    requires forall k :: 0 <= k < |r.dst[j].inputs| && r.dst[j].inputs[k].Ext? ==> r.dst[j].inputs[k].id in s.bind
    ensures CreatedCopied(r, ins, s, j + 1, Filed(res, s.d[j], NewEdgesUpTo(r, s, j, |r.dst[j].inputs|)))
  {
    var es := CreatedEdges(r, ins, s, j);
    var res' := Filed(res, s.d[j], es);
    assert NewEdgesUpTo(r, s, j, |r.dst[j].inputs|) == es;
    assert s.d[j] !in res by { assert s.d[j] !in s.d[..j]; }
    FiledGet(res, s.d[j], es);
    CreatedNodes(r, ins, s, j, res);
    forall n | n in ins && n !in s.pos ensures Get(res', n) == KeptEdges(r, ins, s, n) {
      assert n != s.d[j];
    }
    forall i | 0 <= i < j + 1 ensures Get(res', s.d[i]) == CreatedEdges(r, ins, s, i) {
      if i < j { assert s.d[i] != s.d[j]; }
    }
  }

  lemma FiledGet(m: EdgeMap, n: Op, es: set<Edge>)
    requires n !in m
    ensures forall k :: Get(Filed(m, n, es), k) == if k == n then es else Get(m, k)
  {
  }

  lemma CreatedNodes(r: Rule, ins: EdgeMap, s: Site, j: nat, res: EdgeMap)
    requires ValidSite(r, ins, s) && j < |s.d| && CreatedCopied(r, ins, s, j, res)
    ensures var res' := Filed(res, s.d[j], CreatedEdges(r, ins, s, j));
      forall n :: n in res' ==> res'[n] != {} && (n in s.d[..j + 1] || (n in ins && n !in s.pos))
  {
    var res' := Filed(res, s.d[j], CreatedEdges(r, ins, s, j));
    assert s.d[..j + 1] == s.d[..j] + [s.d[j]];
    forall n | n in res' ensures res'[n] != {} && (n in s.d[..j + 1] || (n in ins && n !in s.pos)) {
      if n != s.d[j] { assert n in res; }
    }
  }

  // ---------------------------------------------------------------------
  // The check before rewriting
  // ---------------------------------------------------------------------

  /** What `run` verifies over outEdges. */
  ghost predicate ExternalOutputsMapped(r: Rule, outs: EdgeMap, pos: map<Op, nat>) {
    forall op, e :: op in pos && e in Get(outs, op) && e.dstOp !in pos ==> (pos[op], e.srcIdx) in r.outs
  }

  /** The mirror makes that check exactly the one create_new_graph needs over inEdges. */
  lemma CheckIsSufficient(r: Rule, ins: EdgeMap, outs: EdgeMap, pos: map<Op, nat>)
    requires Mirror(ins, outs)
    ensures ExternalOutputsMapped(r, outs, pos) <==> OutputsMapped(r, ins, pos)
  {
    forall e: Edge | e in Get(ins, e.dstOp) || e in Get(outs, e.srcOp)
      ensures e.dstOp in ins && e in ins[e.dstOp] && e in Get(outs, e.srcOp)
    {
    }
    if OutputsMapped(r, ins, pos) {
      forall op, e | op in pos && e in Get(outs, op) && e.dstOp !in pos ensures (pos[op], e.srcIdx) in r.outs {
        assert e.srcOp == op;
        assert e.dstOp in ins && e in ins[e.dstOp];
      }
    }
    if ExternalOutputsMapped(r, outs, pos) {
      forall n, e | n in ins && n !in pos && e in ins[n] && e.srcOp in pos ensures (pos[e.srcOp], e.srcIdx) in r.outs {
        assert e in Get(ins, e.dstOp) && e in Get(outs, e.srcOp);
      }
    }
  }

  // ---------------------------------------------------------------------
  // Backtracking search for linear rules
  // ---------------------------------------------------------------------

  /** The bindings create_new_graph uses: the head of each list. */
  function Heads(mi: Bindings): map<int, (Op, int)> {
    map id | id in mi && mi[id] != [] :: mi[id][0]
  }

  ghost predicate Placed(r: Rule, ins: EdgeMap, f: seq<Op>) {
    exists bind :: Embeds(r, ins, f, bind)
  }

  /** The external inputs of the first n source operators. */
  ghost predicate BoundSoFar(r: Rule, n: nat, mi: Bindings)
    requires n <= |r.src|
  {
    && (forall id :: id in mi <==> UsesExt(r.src[..n], id))
    && (forall id :: id in mi ==> mi[id] != [])
  }

  /** The matching state in the middle of a search. */
  ghost predicate Partial(r: Rule, ins: EdgeMap, m: Matching) {
    && |m.mapOp| <= |r.src|
    && Embeds(r, ins, m.mapOp, Heads(m.mappedInputs))
    && Inverse(m.mapOp, m.mappedOps)
    && BoundSoFar(r, |m.mapOp|, m.mappedInputs)
  }

  ghost function Matched(r: Rule, ins: EdgeMap, m: Matching, op: Op): Matching
    requires op in ins && |m.mapOp| < |r.src|
    requires forall j :: 0 <= j < |r.src[|m.mapOp|].inputs| ==> FeedsInput(ins[op], j)
  {
    var x := r.src[|m.mapOp|];
    Matching(m.mapOp + [op], m.mappedOps[op := |m.mapOp|], Bind(x.inputs, |x.inputs|, ins[op], m.mappedInputs))
  }

  /** In a linear rule the next operator's external inputs are new and pairwise distinct. */
  lemma LinearNext(r: Rule, n: nat, mi: Bindings)
    requires Linear(r) && n < |r.src| && BoundSoFar(r, n, mi)
    ensures DistinctExt(r.src[n].inputs)
    ensures ExtIds(r.src[n].inputs, |r.src[n].inputs|) !! mi.Keys
  {
    var inputs := r.src[n].inputs;
    forall id | id in ExtIds(inputs, |inputs|) ensures id !in mi {
      var k :| 0 <= k < |inputs| && inputs[k].Ext? && inputs[k].id == id;
      assert forall i, q :: 0 <= i < n && 0 <= q < |r.src[i].inputs| ==> r.src[i].inputs[q] != r.src[n].inputs[k];
      assert !UsesExt(r.src[..n], id);
    }
  }

  /** With distinct, unbound inputs can_match compares every external input with its own producer. */
  lemma LinearCanMatch(r: Rule, ins: EdgeMap, m: Matching, op: Op)
    requires Linear(r) && InOrder(r.src) && Arity(ins) && Partial(r, ins, m) && |m.mapOp| < |r.src|
    requires op in ins
    ensures CanMatch(r.src[|m.mapOp|], m, ins[op], op) <==>
      Fits(r.src[|m.mapOp|], op) && forall k :: 0 <= k < |r.src[|m.mapOp|].inputs| && r.src[|m.mapOp|].inputs[k].Out? ==>
        InternalAgrees(r.src[|m.mapOp|], m.mapOp, ins[op], op, k)
  {
    var n := |m.mapOp|;
    var x, s := r.src[n], ins[op];
    LinearNext(r, n, m.mappedInputs);
    assert OneEdgePerInput(op, s);
    if Fits(x, op) {
      forall k | 0 <= k < |x.inputs|
        ensures InputAgrees(x, m, s, op, k) <==> (x.inputs[k].Out? ==> InternalAgrees(x, m.mapOp, s, op, k))
      {
        if x.inputs[k].Ext? {
          var id := x.inputs[k].id;
          assert id in ExtIds(x.inputs, |x.inputs|);
          var p := SourceAt(s, k);
          var e :| e in s && e.dstIdx == k && p == (e.srcOp, e.srcIdx);
          assert e == Edge(p.0, op, p.1, k);
        }
      }
    }
  }

  ghost predicate InternalAgrees(x: OpX, mapOp: seq<Op>, s: set<Edge>, op: Op, k: nat)
    requires k < |x.inputs| && x.inputs[k].Out?
  {
    x.inputs[k].op < |mapOp| && Edge(mapOp[x.inputs[k].op], op, x.inputs[k].idx, k) in s
  }

  /** Every placement that extends the current one passes can_match at the next operator. */
  lemma PlacementPasses(r: Rule, ins: EdgeMap, m: Matching, f: seq<Op>)
    requires Linear(r) && InOrder(r.src) && Arity(ins) && Partial(r, ins, m)
    requires Placed(r, ins, f) && m.mapOp <= f && |m.mapOp| < |f|
    ensures f[|m.mapOp|] in ins && CanMatch(r.src[|m.mapOp|], m, ins[f[|m.mapOp|]], f[|m.mapOp|])
    ensures f[|m.mapOp|] !in m.mappedOps
  {
    var bind :| Embeds(r, ins, f, bind);
    var n := |m.mapOp|;
    var op := f[n];
    LinearCanMatch(r, ins, m, op);
    forall k | 0 <= k < |r.src[n].inputs| && r.src[n].inputs[k].Out? ensures InternalAgrees(r.src[n], m.mapOp, ins[op], op, k) {
      assert InputEmbedded(r, ins, f, bind, n, k);
    }
    assert forall i :: 0 <= i < n ==> m.mapOp[i] != op;
  }

  lemma UsesExtNext(r: Rule, n: nat, id: int)
    requires n < |r.src|
    ensures UsesExt(r.src[..n + 1], id) <==>
      UsesExt(r.src[..n], id) || id in ExtIds(r.src[n].inputs, |r.src[n].inputs|)
  {
    var a, b := r.src[..n], r.src[..n + 1];
    if UsesExt(a, id) {
      var i, k :| 0 <= i < |a| && 0 <= k < |a[i].inputs| && a[i].inputs[k] == Ext(id);
      assert b[i] == a[i];
    }
    if id in ExtIds(r.src[n].inputs, |r.src[n].inputs|) {
      var k :| 0 <= k < |r.src[n].inputs| && r.src[n].inputs[k].Ext? && r.src[n].inputs[k].id == id;
      assert b[n].inputs[k] == Ext(id);
    }
    if UsesExt(b, id) {
      var i, k :| 0 <= i < |b| && 0 <= k < |b[i].inputs| && b[i].inputs[k] == Ext(id);
      if i < n { assert a[i].inputs[k] == Ext(id); }
    }
  }

  /** Binding distinct, unbound inputs records each one's producer. */
  lemma {:induction false} BindRecords(inputs: seq<TensorX>, n: nat, s: set<Edge>, mi: Bindings, k: nat)
    requires n <= |inputs| && k < n && inputs[k].Ext?
    requires forall j :: 0 <= j < n ==> FeedsInput(s, j)
    requires DistinctExt(inputs) && ExtIds(inputs, |inputs|) !! mi.Keys
    ensures inputs[k].id in Bind(inputs, n, s, mi) && Bind(inputs, n, s, mi)[inputs[k].id] == [SourceAt(s, k)]
  {
    var id := inputs[k].id;
    if k < n - 1 {
      BindRecords(inputs, n - 1, s, mi, k);
    } else {
      BindKeys(inputs, n - 1, s, mi);
      assert id in ExtIds(inputs, |inputs|);
      assert forall j :: 0 <= j < n - 1 ==> inputs[j] != inputs[k];
      assert id !in ExtIds(inputs, n - 1);
    }
  }

  /** A successful can_match extends the placement. */
  lemma MatchKeepsPartial(r: Rule, ins: EdgeMap, m: Matching, op: Op)
    requires Linear(r) && InOrder(r.src) && Arity(ins) && Partial(r, ins, m) && |m.mapOp| < |r.src|
    requires op in ins && op !in m.mappedOps
    requires CanMatch(r.src[|m.mapOp|], m, ins[op], op)
    ensures Partial(r, ins, Matched(r, ins, m, op))
  {
    MatchKeepsBound(r, ins, m, op);
    MatchKeepsEmbeds(r, ins, m, op);
  }

  lemma MatchKeepsBound(r: Rule, ins: EdgeMap, m: Matching, op: Op)
    requires |m.mapOp| < |r.src| && BoundSoFar(r, |m.mapOp|, m.mappedInputs)
    requires op in ins && forall j :: 0 <= j < |r.src[|m.mapOp|].inputs| ==> FeedsInput(ins[op], j)
    ensures BoundSoFar(r, |m.mapOp| + 1, Matched(r, ins, m, op).mappedInputs)
  {
    var n := |m.mapOp|;
    var x := r.src[n];
    BindKeys(x.inputs, |x.inputs|, ins[op], m.mappedInputs);
    forall id ensures UsesExt(r.src[..n + 1], id) <==>
      UsesExt(r.src[..n], id) || id in ExtIds(x.inputs, |x.inputs|)
    {
      UsesExtNext(r, n, id);
    }
  }

  lemma MatchKeepsEmbeds(r: Rule, ins: EdgeMap, m: Matching, op: Op)
    requires Linear(r) && InOrder(r.src) && Arity(ins) && Partial(r, ins, m) && |m.mapOp| < |r.src|
    requires op in ins && op !in m.mappedOps
    requires CanMatch(r.src[|m.mapOp|], m, ins[op], op)
    ensures var m' := Matched(r, ins, m, op); Embeds(r, ins, m'.mapOp, Heads(m'.mappedInputs))
  {
    var n := |m.mapOp|;
    var m' := Matched(r, ins, m, op);
    forall i, k | 0 <= i < |m'.mapOp| && 0 <= k < |r.src[i].inputs|
      ensures InputEmbedded(r, ins, m'.mapOp, Heads(m'.mappedInputs), i, k)
    {
      MatchEmbedsInput(r, ins, m, op, i, k);
    }
    forall i | 0 <= i < n ensures m.mapOp[i] != op {
      assert m.mapOp[i] in m.mappedOps;
    }
  }

  lemma MatchEmbedsInput(r: Rule, ins: EdgeMap, m: Matching, op: Op, i: nat, k: nat)
    requires Linear(r) && InOrder(r.src) && Arity(ins) && Partial(r, ins, m) && |m.mapOp| < |r.src|
    requires op in ins && CanMatch(r.src[|m.mapOp|], m, ins[op], op)
    requires i <= |m.mapOp| && k < |r.src[i].inputs|
    ensures var m' := Matched(r, ins, m, op); InputEmbedded(r, ins, m'.mapOp, Heads(m'.mappedInputs), i, k)
  {
    var n := |m.mapOp|;
    var x, s := r.src[n], ins[op];
    var m' := Matched(r, ins, m, op);
    LinearNext(r, n, m.mappedInputs);
    BindKeys(x.inputs, |x.inputs|, s, m.mappedInputs);
    if i < n {
      assert InputEmbedded(r, ins, m.mapOp, Heads(m.mappedInputs), i, k);
      if r.src[i].inputs[k].Ext? {
        var id := r.src[i].inputs[k].id;
        assert id in m.mappedInputs && m'.mappedInputs[id] == m.mappedInputs[id];
      }
    } else {
      assert InputAgrees(x, m, s, op, k);
      if x.inputs[k].Ext? {
        BindRecords(x.inputs, |x.inputs|, s, m.mappedInputs, k);
        var p := SourceAt(s, k);
        var e :| e in s && e.dstIdx == k && p == (e.srcOp, e.srcIdx);
        assert e == Edge(p.0, op, p.1, k);
      }
    }
  }

  /** Every operator whose type and arity fit a source operator has the parameters the rule constrains. */
  ghost predicate ParamsKnown(r: Rule, ins: EdgeMap) {
    forall i, op, c :: 0 <= i < |r.src| && op in ins && op.kind == r.src[i].kind && c in r.src[i].pm ==> c.para in op.params
  }

  /** Every operator of the graph was created before the next id to be given out. */
  ghost predicate IdsBelow(ins: EdgeMap, next: int) {
    && next > GUID_PRESERVED
    && (forall n :: n in ins ==> n.guid < next)
    && (forall n, e :: n in ins && e in ins[n] ==> e.srcOp.guid < next)
  }

  /** A graph the search may push: a rewrite at a valid site that passes the loop test. */
  ghost predicate IsCandidate(r: Rule, ins: EdgeMap, c: EdgeMap) {
    Closed(c) && Acyclic(c) && exists s :: ValidSite(r, ins, s) && IsRewrite(r, ins, s, c)
  }

  /** Nothing stops a rewrite at `f`: shapes fit and every output read outside is mapped. */
  ghost predicate Accepts(r: Rule, ins: EdgeMap, shapesOk: seq<Op> -> bool, f: seq<Op>) {
    shapesOk(f) && exists pos :: Inverse(f, pos) && OutputsMapped(r, ins, pos)
  }

  /** The rewrite at `f` was built, and pushed unless it has a loop. */
  ghost predicate Handled(r: Rule, ins: EdgeMap, f: seq<Op>, cands: seq<EdgeMap>) {
    exists s: Site, c :: s.f == f && ValidSite(r, ins, s) && IsRewrite(r, ins, s, c) && (Closed(c) && Acyclic(c) ==> c in cands)
  }

  /** Every accepted placement in `found` was handled. */
  ghost predicate AllHandled(r: Rule, ins: EdgeMap, shapesOk: seq<Op> -> bool, found: set<seq<Op>>, cands: seq<EdgeMap>) {
    forall f :: f in found && Accepts(r, ins, shapesOk, f) ==> Handled(r, ins, f, cands)
  }

  lemma HandledTogether(r: Rule, ins: EdgeMap, shapesOk: seq<Op> -> bool,
                        found: set<seq<Op>>, cands: seq<EdgeMap>, found': set<seq<Op>>, cands': seq<EdgeMap>)
    requires AllHandled(r, ins, shapesOk, found, cands) && AllHandled(r, ins, shapesOk, found', cands')
    ensures AllHandled(r, ins, shapesOk, found + found', cands + cands')
  {
    forall f | f in found + found' && Accepts(r, ins, shapesOk, f) ensures Handled(r, ins, f, cands + cands') {
      var cs := if f in found then cands else cands';
      assert Handled(r, ins, f, cs);
      var s: Site, c :| s.f == f && ValidSite(r, ins, s) && IsRewrite(r, ins, s, c) && (Closed(c) && Acyclic(c) ==> c in cs);
      assert c in cs ==> c in cands + cands';
    }
  }

  lemma InverseIsUnique(f: seq<Op>, pos: map<Op, nat>, pos': map<Op, nat>)
    requires Inverse(f, pos) && Inverse(f, pos')
    ensures pos == pos'
  {
    assert forall op :: op in pos <==> op in pos';
  }

  /** A complete placement that extends `f0`. */
  ghost predicate Reaches(r: Rule, ins: EdgeMap, f0: seq<Op>, f: seq<Op>) {
    |f| == |r.src| && f0 <= f && Placed(r, ins, f)
  }

  /** The parameters fixed by equality constraints; the first constraint on a parameter wins. */
  function EqualParams(pm: seq<PMConstraint>): map<int, int> {
    if pm == [] then map[]
    else if pm[0].comp == EQ then EqualParams(pm[1..])[pm[0].para := pm[0].value]
    else EqualParams(pm[1..])
  }

  /** New ids give operators that occur nowhere in the graph. */
  lemma NewIdsAreFresh(r: Rule, ins: EdgeMap, d: seq<Op>, next: int)
    requires IdsBelow(ins, next) && |d| == |r.dst|
    requires forall j :: 0 <= j < |d| ==> d[j].guid == next + j && d[j].numInputs == |r.dst[j].inputs|
    ensures FreshOps(r, ins, d)
  {
  }

  /** A complete partial match, new operators and a passed check make a valid site. */
  lemma CompleteIsSite(r: Rule, ins: EdgeMap, m: Matching, d: seq<Op>)
    requires WellFormed(r) && Keyed(ins) && Partial(r, ins, m) && |m.mapOp| == |r.src| && FreshOps(r, ins, d)
    requires OutputsMapped(r, ins, m.mappedOps)
    ensures ValidSite(r, ins, Site(m.mapOp, m.mappedOps, Heads(m.mappedInputs), d))
  {
  }

  /** The graph and the rule meet what the search relies on. */
  ghost predicate Searchable(r: Rule, ins: EdgeMap, next: int) {
    && WellFormed(r) && Linear(r)
    && Keyed(ins) && Arity(ins) && NodesAreNotReserved(ins) && ParamsKnown(r, ins) && IdsBelow(ins, next)
  }

  /** The search below one choice for the next operator finds the placements that make that choice. */
  lemma ChoiceCovers(r: Rule, ins: EdgeMap, m: Matching, op: Op)
    requires |m.mapOp| < |r.src|
    ensures forall f :: Reaches(r, ins, m.mapOp + [op], f) <==> Reaches(r, ins, m.mapOp, f) && f[|m.mapOp|] == op
  {
    forall f: seq<Op> | |f| == |r.src| ensures m.mapOp + [op] <= f <==> m.mapOp <= f && f[|m.mapOp|] == op {
    }
  }

  /** A choice that can_match refuses, or that is already taken, starts no placement. */
  lemma NoPlacement(r: Rule, ins: EdgeMap, m: Matching, op: Op)
    requires Linear(r) && InOrder(r.src) && Arity(ins) && Partial(r, ins, m) && |m.mapOp| < |r.src| && op in ins
    requires !CanMatch(r.src[|m.mapOp|], m, ins[op], op) || op in m.mappedOps
    ensures forall f :: Reaches(r, ins, m.mapOp, f) ==> f[|m.mapOp|] != op
  {
    forall f | Reaches(r, ins, m.mapOp, f) ensures f[|m.mapOp|] != op {
      PlacementPasses(r, ins, m, f);
    }
  }

  /** In a linear rule, unmatch after match gives back the state before. */
  lemma UnmatchRestores(r: Rule, ins: EdgeMap, m: Matching, op: Op)
    requires Linear(r) && Arity(ins) && Partial(r, ins, m) && |m.mapOp| < |r.src|
    requires op in ins && op !in m.mappedOps && Fits(r.src[|m.mapOp|], op)
    ensures var m', x := Matched(r, ins, m, op), r.src[|m.mapOp|];
      && Unbind(x.inputs, |x.inputs|, m'.mappedInputs) == Restored(m.mappedInputs)
      && m'.mappedOps - {op} == m.mappedOps && m'.mapOp[..|m.mapOp|] == m.mapOp
  {
    var x := r.src[|m.mapOp|];
    assert OneEdgePerInput(op, ins[op]);
    LinearNext(r, |m.mapOp|, m.mappedInputs);
    UnmatchUndoesMatch(x.inputs, ins[op], m.mappedInputs);
  }

  class GraphXfer {
    const rule: Rule
    /** Whether shape inference accepts the target operators for this match. */
    const shapesOk: seq<Op> -> bool

    var mapOp: seq<Op>
    var mappedOps: map<Op, nat>
    var mappedInputs: Bindings
    var nextGuid: int

    constructor (rule: Rule, shapesOk: seq<Op> -> bool, nextGuid: int)
      ensures this.rule == rule && this.shapesOk == shapesOk && this.nextGuid == nextGuid
      ensures State() == Matching([], map[], map[])
    {
      this.rule, this.shapesOk, this.nextGuid := rule, shapesOk, nextGuid;
      mapOp, mappedOps, mappedInputs := [], map[], map[];
    }

    ghost function State(): Matching
      reads this
    {
      Matching(mapOp, mappedOps, mappedInputs)
    }

    /** The loop over the parameter constraints. */
    static method ParamsMatch(x: OpX, op: Op) returns (ok: bool)
      requires forall c :: c in x.pm ==> c.para in op.params
      ensures ok <==> forall c :: c in x.pm ==> Satisfies(c, op.params[c.para])
    {
      var q := 0;
      while q < |x.pm|
        invariant 0 <= q <= |x.pm|
        invariant forall c :: c in x.pm[..q] ==> Satisfies(c, op.params[c.para])
      {
        if !Satisfies(x.pm[q], op.params[x.pm[q].para]) { return false; }
        q := q + 1;
      }
      assert x.pm[..q] == x.pm;
      return true;
    }

    /** can_match for the next source operator. */
    method CanMatchOp(op: Op, s: set<Edge>) returns (ok: bool)
      requires |mapOp| < |rule.src| && OneEdgePerInput(op, s)
      requires InOrder(rule.src) && forall id :: id in mappedInputs ==> mappedInputs[id] != []
      requires op.kind == rule.src[|mapOp|].kind ==> forall c :: c in rule.src[|mapOp|].pm ==> c.para in op.params
      ensures ok <==> CanMatch(rule.src[|mapOp|], State(), s, op)
    {
      var x := rule.src[|mapOp|];
      if x.kind != op.kind || |x.inputs| != op.numInputs { return false; }
      ok := ParamsMatch(x, op);
      if !ok { return false; }
      var newMap: map<int, (Op, int)> := map[];
      for k := 0 to |x.inputs|
        invariant forall j :: 0 <= j < k ==> InputAgrees(x, State(), s, op, j)
        invariant forall id :: id in newMap <==> id !in mappedInputs && exists j :: 0 <= j < k && x.inputs[j] == Ext(id)
        invariant forall id :: id in newMap ==> newMap[id] == SourceAt(s, FirstUse(x.inputs, id))
      {
        assert FeedsInput(s, k);
        match x.inputs[k]
        case Ext(id) =>
          if id in mappedInputs {
            if Edge(mappedInputs[id][0].0, op, mappedInputs[id][0].1, k) !in s {
              assert !InputAgrees(x, State(), s, op, k);
              return false;
            }
          } else if id in newMap {
            if Edge(newMap[id].0, op, newMap[id].1, k) !in s {
              assert !InputAgrees(x, State(), s, op, k);
              return false;
            }
          } else {
            var e :| e in s && e.dstIdx == k;
            SourceIsUnique(op, s, e);
            newMap := newMap[id := (e.srcOp, e.srcIdx)];
          }
        case Out(j, idx) =>
          if j >= |mapOp| || Edge(mapOp[j], op, idx, k) !in s {
            assert !InputAgrees(x, State(), s, op, k);
            return false;
          }
      }
      return true;
    }

    method MatchOp(op: Op, ins: EdgeMap)
      requires op in ins && |mapOp| < |rule.src| && OneEdgePerInput(op, ins[op])
      requires |rule.src[|mapOp|].inputs| == op.numInputs
      modifies `mapOp, `mappedOps, `mappedInputs
      ensures State() == Matched(rule, ins, old(State()), op)
    {
      var x, s := rule.src[|mapOp|], ins[op];
      for k := 0 to |x.inputs|
        invariant mapOp == old(mapOp) && mappedOps == old(mappedOps)
        invariant mappedInputs == Bind(x.inputs, k, s, old(mappedInputs))
      {
        if x.inputs[k].Ext? {
          var id := x.inputs[k].id;
          assert FeedsInput(s, k);
          var e :| e in s && e.dstIdx == k;
          SourceIsUnique(op, s, e);
          var p := (e.srcOp, e.srcIdx);
          mappedInputs := mappedInputs[id := if id in mappedInputs then mappedInputs[id] + [p] else [p]];
        }
      }
      mapOp, mappedOps := mapOp + [op], mappedOps[op := |mapOp|];
    }

    /** Returns false where the source raises KeyError. */
    method UnmatchOp(op: Op) returns (ok: bool)
      requires 0 < |mapOp| <= |rule.src| && op in mappedOps
      modifies `mapOp, `mappedOps, `mappedInputs
      ensures var x := rule.src[|old(mapOp)| - 1]; var u := Unbind(x.inputs, |x.inputs|, old(mappedInputs));
        && ok == u.Restored?
        && (ok ==> State() == Matching(old(mapOp)[..|old(mapOp)| - 1], old(mappedOps) - {op}, u.b))
    {
      var x := rule.src[|mapOp| - 1];
      ghost var mi := mappedInputs;
      for k := 0 to |x.inputs|
        invariant mapOp == old(mapOp) && mappedOps == old(mappedOps)
        invariant Unbind(x.inputs, k, mi) == Restored(mappedInputs)
      {
        if x.inputs[k].Ext? {
          if x.inputs[k].id !in mappedInputs {
            UnbindRemoves(x.inputs, k + 1, mi);
            UnbindRemoves(x.inputs, |x.inputs|, mi);
            return false;
          }
          mappedInputs := mappedInputs - {x.inputs[k].id};
        }
      }
      mappedOps, mapOp := mappedOps - {op}, mapOp[..|mapOp| - 1];
      ok := true;
    }

    /** create_new_operator for every target operator: each gets the next id. */
    method NewOperators() returns (d: seq<Op>)
      modifies `nextGuid
      ensures |d| == |rule.dst| && nextGuid == old(nextGuid) + |d|
      ensures forall j :: 0 <= j < |d| ==>
        d[j].guid == old(nextGuid) + j && d[j].kind == rule.dst[j].kind && d[j].numInputs == |rule.dst[j].inputs|
    {
      d := [];
      for j := 0 to |rule.dst|
        invariant |d| == j && nextGuid == old(nextGuid) + j
        invariant forall i :: 0 <= i < j ==>
          d[i].guid == old(nextGuid) + i && d[i].kind == rule.dst[i].kind && d[i].numInputs == |rule.dst[i].inputs|
      {
        var x := rule.dst[j];
        d := d + [Op(nextGuid, x.kind, |x.inputs|, EqualParams(x.pm))];
        nextGuid := nextGuid + 1;
      }
    }

    /** The check over the out-edges of all matched operators. */
    method CheckOutputs(g: Graph) returns (ok: bool)
      requires g.Valid()
      modifies g`outEdges
      ensures g.Valid() && SameEdges(old(g.outEdges), g.outEdges)
      ensures ok <==> ExternalOutputsMapped(rule, g.outEdges, mappedOps)
    {
      var rest := mappedOps.Keys;
      ghost var done: set<Op> := {};
      while rest != {}
        invariant g.Valid() && SameEdges(old(g.outEdges), g.outEdges)
        invariant forall op :: op in mappedOps <==> op in rest || op in done
        invariant forall op, e :: op in done && op in mappedOps && e in Get(g.outEdges, op) && e.dstOp !in mappedOps ==>
          (mappedOps[op], e.srcIdx) in rule.outs
        decreases |rest|
      {
        var op :| op in rest;
        TouchKeepsMirror(g.inEdges, g.outEdges, op);
        g.outEdges := Touch(g.outEdges, op);
        if exists e :: e in g.outEdges[op] && e.dstOp !in mappedOps && (mappedOps[op], e.srcIdx) !in rule.outs {
          assert op in mappedOps && g.outEdges[op] == Get(g.outEdges, op);
          return false;
        }
        rest, done := rest - {op}, done + {op};
      }
      return true;
    }

    /** At a complete match: create the operators, check the outputs, rewrite, and keep the graph if it has no loop. */
    method Emit(g: Graph) returns (cands: seq<EdgeMap>)
      requires g.Valid() && Searchable(rule, g.inEdges, nextGuid)
      requires Partial(rule, g.inEdges, State()) && |mapOp| == |rule.src|
      modifies `nextGuid, g`outEdges
      ensures g.Valid() && SameEdges(old(g.outEdges), g.outEdges)
      ensures old(nextGuid) <= nextGuid
      ensures forall c :: c in cands ==> IsCandidate(rule, g.inEdges, c)
      ensures Accepts(rule, g.inEdges, shapesOk, mapOp) ==> Handled(rule, g.inEdges, mapOp, cands)
    {
      cands := [];
      if !shapesOk(mapOp) { return; }
      ghost var next := nextGuid;
      var d := NewOperators();
      NewIdsAreFresh(rule, g.inEdges, d, next);
      var ok := CheckOutputs(g);
      CheckIsSufficient(rule, g.inEdges, g.outEdges, mappedOps);
      if !ok {
        forall pos | Inverse(mapOp, pos) ensures !OutputsMapped(rule, g.inEdges, pos) {
          InverseIsUnique(mapOp, pos, mappedOps);
        }
        return;
      }
      var s := Site(mapOp, mappedOps, Heads(mappedInputs), d);
      CompleteIsSite(rule, g.inEdges, State(), d);
      var h := CreateNewGraph(g, rule, s);
      RewriteKeepsShape(rule, g.inEdges, s, h.inEdges);
      var loop := h.HasLoop();
      if !loop { cands := [h.inEdges]; }
      assert s.f == mapOp && (Closed(h.inEdges) && Acyclic(h.inEdges) ==> h.inEdges in cands);
    }

    /**
     The recursive search from the current partial match.  For a linear rule it
     leaves the matching state as it found it, and `found` is exactly the set of
     complete placements that extend the current one.
     */
    method Run(g: Graph) returns (found: set<seq<Op>>, cands: seq<EdgeMap>)
      requires g.Valid() && Searchable(rule, g.inEdges, nextGuid)
      requires Partial(rule, g.inEdges, State())
      modifies this, g`outEdges
      ensures g.Valid() && SameEdges(old(g.outEdges), g.outEdges)
      ensures State() == old(State()) && old(nextGuid) <= nextGuid
      ensures forall f :: f in found <==> Reaches(rule, g.inEdges, mapOp, f)
      ensures forall c :: c in cands ==> IsCandidate(rule, g.inEdges, c)
      ensures AllHandled(rule, g.inEdges, shapesOk, found, cands)
      decreases |rule.src| - |mapOp|
    {
      if |mapOp| >= |rule.src| {
        found := {mapOp};
        assert Placed(rule, g.inEdges, mapOp);
        assert forall f :: mapOp <= f && |f| == |mapOp| ==> f == mapOp;
        cands := Emit(g);
        return;
      }
      found, cands := {}, [];
      ghost var ins, m := g.inEdges, State();
      var rest := g.inEdges.Keys;
      ghost var done: set<Op> := {};
      while rest != {}
        invariant g.Valid() && SameEdges(old(g.outEdges), g.outEdges) && g.inEdges == ins
        invariant State() == m && old(nextGuid) <= nextGuid
        invariant forall op :: op in ins <==> op in rest || op in done
        invariant forall f :: f in found <==> Reaches(rule, ins, m.mapOp, f) && f[|m.mapOp|] in done
        invariant forall c :: c in cands ==> IsCandidate(rule, ins, c)
        invariant AllHandled(rule, ins, shapesOk, found, cands)
        decreases |rest|
      {
        var op :| op in rest;
        var sub, subCands := Try(g, op);
        HandledTogether(rule, ins, shapesOk, found, cands, sub, subCands);
        found, cands := found + sub, cands + subCands;
        rest, done := rest - {op}, done + {op};
      }
      forall f | Reaches(rule, ins, m.mapOp, f) ensures f[|m.mapOp|] in done {
        PlacementPasses(rule, ins, m, f);
      }
    }

    /** One iteration: match the next operator to `op` if possible, search on, and unmatch. */
    method Try(g: Graph, op: Op) returns (found: set<seq<Op>>, cands: seq<EdgeMap>)
      requires g.Valid() && Searchable(rule, g.inEdges, nextGuid)
      requires Partial(rule, g.inEdges, State()) && |mapOp| < |rule.src| && op in g.inEdges
      modifies this, g`outEdges
      ensures g.Valid() && SameEdges(old(g.outEdges), g.outEdges)
      ensures State() == old(State()) && old(nextGuid) <= nextGuid
      ensures forall f :: f in found <==> Reaches(rule, g.inEdges, mapOp, f) && f[|mapOp|] == op
      ensures forall c :: c in cands ==> IsCandidate(rule, g.inEdges, c)
      ensures AllHandled(rule, g.inEdges, shapesOk, found, cands)
      decreases |rule.src| - |mapOp|, 0
    {
      found, cands := {}, [];
      ghost var ins, m := g.inEdges, State();
      assert OneEdgePerInput(op, ins[op]);
      var can := CanMatchOp(op, g.inEdges[op]);
      if !can || op in mappedOps {
        NoPlacement(rule, ins, m, op);
        return;
      }
      MatchKeepsPartial(rule, ins, m, op);
      UnmatchRestores(rule, ins, m, op);
      MatchOp(op, g.inEdges);
      found, cands := Run(g);
      ChoiceCovers(rule, ins, m, op);
      var ok := UnmatchOp(op);
      assert ok;
    }
  }
}
