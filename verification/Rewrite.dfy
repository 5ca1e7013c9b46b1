/**
 The graph that a substitution produces, and what it means.

 Operators have an uninterpreted meaning: output `i` of an operator is some
 function of the operator and of the values on its numbered inputs.  A rewrite
 whose rule is sound for the operators involved, and whose result passes the
 loop test, leaves the value of every kept operator unchanged.
 */
module Rewrites {
  import opened Graphs
  import opened Rules

  /** Where a rule is applied: matched operators, their positions, input bindings, created operators. */
  datatype Site = Site(f: seq<Op>, pos: map<Op, nat>, bind: map<int, (Op, int)>, d: seq<Op>)

  ghost predicate Inverse(f: seq<Op>, pos: map<Op, nat>) {
    && (forall op :: op in pos ==> pos[op] < |f| && f[pos[op]] == op)
    && (forall i :: 0 <= i < |f| ==> f[i] in pos && pos[f[i]] == i)
  }

  /** The created operators carry ids never used before and have one input per pattern input. */
  ghost predicate FreshOps(r: Rule, ins: EdgeMap, d: seq<Op>) {
    && |d| == |r.dst| && NoDup(d)
    && (forall j :: 0 <= j < |d| ==> !Reserved(d[j]) && d[j].numInputs == |r.dst[j].inputs|)
    && (forall j :: 0 <= j < |d| ==> d[j] !in ins)
    && (forall n, e, j :: n in ins && e in ins[n] && 0 <= j < |d| ==> e.srcOp != d[j])
  }

  /** An output read outside the match has a replacement: the check `run` makes before rewriting. */
  ghost predicate OutputsMapped(r: Rule, ins: EdgeMap, pos: map<Op, nat>) {
    forall n, e :: n in ins && n !in pos && e in ins[n] && e.srcOp in pos ==> (pos[e.srcOp], e.srcIdx) in r.outs
  }

  /** A place where the rule may be applied. */
  ghost predicate ValidSite(r: Rule, ins: EdgeMap, s: Site) {
    && WellFormed(r) && Keyed(ins)
    && Embedding(r, ins, s.f, s.bind)
    && Inverse(s.f, s.pos)
    && FreshOps(r, ins, s.d)
    && OutputsMapped(r, ins, s.pos)
  }

  /** An edge into a kept operator: a matched source is replaced by the output mapped to it. */
  function Rewired(r: Rule, s: Site, e: Edge): Edge
    requires e.srcOp in s.pos ==> (s.pos[e.srcOp], e.srcIdx) in r.outs
    requires forall t :: t in r.outs ==> r.outs[t].0 < |s.d|
  {
    if e.srcOp in s.pos then
      var t := r.outs[(s.pos[e.srcOp], e.srcIdx)];
      Edge(s.d[t.0], e.dstOp, t.1, e.dstIdx)
    else e
  }

  /** The edge into input `k` of created operator `j`. */
  function NewEdge(r: Rule, s: Site, j: nat, k: nat): Edge
    requires InOrder(r.dst) && |s.d| == |r.dst| && j < |r.dst| && k < |r.dst[j].inputs|
    requires r.dst[j].inputs[k].Ext? ==> r.dst[j].inputs[k].id in s.bind
  {
    match r.dst[j].inputs[k]
    case Ext(id) => Edge(s.bind[id].0, s.d[j], s.bind[id].1, k)
    case Out(i, idx) => Edge(s.d[i], s.d[j], idx, k)
  }

  /** Every external input of the target pattern is bound by the embedding. */
  lemma DstBound(r: Rule, ins: EdgeMap, s: Site, j: nat, k: nat)
    requires ValidSite(r, ins, s) && j < |r.dst| && k < |r.dst[j].inputs| && r.dst[j].inputs[k].Ext?
    ensures var id := r.dst[j].inputs[k].id;
      id in s.bind && exists n, e :: n in ins && e in ins[n] && (e.srcOp, e.srcIdx) == s.bind[id]
  {
    var id := r.dst[j].inputs[k].id;
    assert UsesExt(r.dst, id) && UsesExt(r.src, id);
    var i, q :| 0 <= i < |r.src| && 0 <= q < |r.src[i].inputs| && r.src[i].inputs[q] == Ext(id);
    assert InputEmbedded(r, ins, s.f, s.bind, i, q);
    var n, e := s.f[i], Edge(s.bind[id].0, s.f[i], s.bind[id].1, q);
    assert n in ins && e in ins[n];
  }

  ghost function KeptEdges(r: Rule, ins: EdgeMap, s: Site, n: Op): set<Edge>
    requires ValidSite(r, ins, s) && n in ins && n !in s.pos
  {
    set e | e in ins[n] :: Rewired(r, s, e)
  }

  ghost function CreatedEdges(r: Rule, ins: EdgeMap, s: Site, j: nat): set<Edge>
    requires ValidSite(r, ins, s) && j < |s.d|
  {
    set k | 0 <= k < |r.dst[j].inputs| ::
      (if r.dst[j].inputs[k].Ext? then DstBound(r, ins, s, j, k); NewEdge(r, s, j, k) else NewEdge(r, s, j, k))
  }

  /** `res` is the graph that create_new_graph builds from `ins` at site `s`. */
  ghost predicate IsRewrite(r: Rule, ins: EdgeMap, s: Site, res: EdgeMap)
    requires ValidSite(r, ins, s)
  {
    && (forall n :: n in res ==> res[n] != {} && (n in s.d || (n in ins && n !in s.pos)))
    && (forall n :: n in ins && n !in s.pos ==> Get(res, n) == KeptEdges(r, ins, s, n))
    && (forall j :: 0 <= j < |s.d| ==> Get(res, s.d[j]) == CreatedEdges(r, ins, s, j))
  }

  /** The description determines the graph. */
  lemma RewriteIsUnique(r: Rule, ins: EdgeMap, s: Site, res: EdgeMap, res': EdgeMap)
    requires ValidSite(r, ins, s) && IsRewrite(r, ins, s, res) && IsRewrite(r, ins, s, res')
    ensures res == res'
  {
    forall n ensures Get(res, n) == Get(res', n) {
      if n in s.d {
        var j :| 0 <= j < |s.d| && s.d[j] == n;
      }
    }
    assert forall n :: n in res <==> Get(res, n) != {};
    assert forall n :: n in res' <==> Get(res', n) != {};
  }

  // ---------------------------------------------------------------------
  // Meaning
  // ---------------------------------------------------------------------

  type Meaning<!V(==)> = (Op, set<(int, V)>, int) -> V
  type Valuation<V> = (Op, int) -> V

  /** The values on the numbered inputs of an operator with in-edges `s`. */
  ghost function Reads<V>(s: set<Edge>, v: Valuation<V>): set<(int, V)> {
    set e | e in s :: (e.dstIdx, v(e.srcOp, e.srcIdx))
  }

  /** Every node has the value its operator computes from its inputs. */
  ghost predicate Computes<V(!new)>(ins: EdgeMap, sem: Meaning<V>, v: Valuation<V>) {
    forall n, i :: n in ins ==> v(n, i) == sem(n, Reads(ins[n], v), i)
  }

  /** The two valuations give the reserved sources (inputs and weights) the same values. */
  ghost predicate SameSources<V(!new)>(v: Valuation<V>, v': Valuation<V>) {
    forall op, i :: Reserved(op) ==> v(op, i) == v'(op, i)
  }

  ghost function Rank(t: TensorX): nat {
    match t case Ext(_) => 0 case Out(j, _) => j + 1
  }

  /** The value of a pattern tensor when pattern operator `j` is played by `ops[j]` and input `id` is `x(id)`. */
  ghost function Eval<V>(xs: seq<OpX>, ops: seq<Op>, sem: Meaning<V>, x: int -> V, t: TensorX): V
    requires InOrder(xs) && |ops| == |xs|
    requires t.Out? ==> t.op < |xs|
    decreases Rank(t), 1
  {
    match t
    case Ext(id) => x(id)
    case Out(j, idx) => sem(ops[j], EvalInputs(xs, ops, sem, x, j), idx)
  }

  /** The numbered input values of pattern operator `j`. */
  ghost function EvalInputs<V>(xs: seq<OpX>, ops: seq<Op>, sem: Meaning<V>, x: int -> V, j: nat): set<(int, V)>
    requires InOrder(xs) && |ops| == |xs| && j < |xs|
    decreases j + 1, 0
  {
    set k | 0 <= k < |xs[j].inputs| :: (k, Eval(xs, ops, sem, x, xs[j].inputs[k]))
  }

  /** On every assignment of the external inputs both sides give the mapped outputs the same values. */
  ghost predicate SoundFor<V(!new)>(r: Rule, f: seq<Op>, d: seq<Op>, sem: Meaning<V>)
    requires WellFormed(r) && |f| == |r.src| && |d| == |r.dst|
  {
    forall x: int -> V, s :: s in r.outs ==>
      Eval(r.src, f, sem, x, Out(s.0, s.1)) == Eval(r.dst, d, sem, x, Out(r.outs[s].0, r.outs[s].1))
  }

  /** Each external input takes the value of the producer it is bound to. */
  ghost function BoundInputs<V>(bind: map<int, (Op, int)>, v: Valuation<V>): int -> V {
    id => if id in bind then v(bind[id].0, bind[id].1) else v(Op(0, 0, 0, map[]), id)
  }

  ghost function InputValue<V>(bind: map<int, (Op, int)>, f: seq<Op>, v: Valuation<V>, t: TensorX): V
  {
    match t
    case Ext(id) => BoundInputs(bind, v)(id)
    case Out(j, idx) => if j < |f| then v(f[j], idx) else v(Op(0, 0, 0, map[]), idx)
  }

  ghost function PatternReads<V>(inputs: seq<TensorX>, bind: map<int, (Op, int)>, f: seq<Op>, v: Valuation<V>): set<(int, V)> {
    set k | 0 <= k < |inputs| :: (k, InputValue(bind, f, v, inputs[k]))
  }

  /** A matched operator reads, input by input, what the pattern says it reads. */
  lemma MatchedReads<V(!new)>(r: Rule, ins: EdgeMap, f: seq<Op>, bind: map<int, (Op, int)>, v: Valuation<V>, i: nat)
    requires InOrder(r.src) && Arity(ins) && Embedding(r, ins, f, bind) && i < |f|
    ensures forall k :: 0 <= k < |r.src[i].inputs| ==> InputEmbedded(r, ins, f, bind, i, k)
    ensures Reads(ins[f[i]], v) == PatternReads(r.src[i].inputs, bind, f, v)
  {
    var n := f[i];
    assert OneEdgePerInput(n, ins[n]);
    assert forall k :: 0 <= k < |r.src[i].inputs| ==> InputEmbedded(r, ins, f, bind, i, k);
    var inputs := r.src[i].inputs;
    forall k | 0 <= k < |inputs| ensures (k, InputValue(bind, f, v, inputs[k])) in Reads(ins[n], v) {
      assert InputEmbedded(r, ins, f, bind, i, k);
      var e := match inputs[k] case Ext(id) => Edge(bind[id].0, n, bind[id].1, k) case Out(j, idx) => Edge(f[j], n, idx, k);
      assert e in ins[n] && e.dstIdx == k;
    }
    forall e | e in ins[n] ensures 0 <= e.dstIdx < |inputs| && v(e.srcOp, e.srcIdx) == InputValue(bind, f, v, inputs[e.dstIdx]) {
      assert InputEmbedded(r, ins, f, bind, i, e.dstIdx);
    }
  }

  /** In the old graph the matched operators have the values of the source pattern. */
  lemma {:induction false} SourceSide<V(!new)>(r: Rule, ins: EdgeMap, f: seq<Op>, bind: map<int, (Op, int)>,
                                               sem: Meaning<V>, v: Valuation<V>, j: nat, idx: int)
    requires InOrder(r.src) && Arity(ins) && Embedding(r, ins, f, bind) && Computes(ins, sem, v) && j < |f|
    ensures v(f[j], idx) == Eval(r.src, f, sem, BoundInputs(bind, v), Out(j, idx))
    decreases j
  {
    var x := BoundInputs(bind, v);
    var inputs := r.src[j].inputs;
    MatchedReads(r, ins, f, bind, v, j);
    forall k | 0 <= k < |inputs| ensures InputValue(bind, f, v, inputs[k]) == Eval(r.src, f, sem, x, inputs[k]) {
      assert InputEmbedded(r, ins, f, bind, j, k);
      match inputs[k]
      case Ext(id) =>
      case Out(i, q) => SourceSide(r, ins, f, bind, sem, v, i, q);
    }
    assert PatternReads(inputs, bind, f, v) == EvalInputs(r.src, f, sem, x, j);
    assert f[j] in ins;
  }

  /** What a node of the new graph should be worth: its old value, or the value of the target pattern. */
  ghost predicate Explained<V(!new)>(r: Rule, s: Site, sem: Meaning<V>, v: Valuation<V>, v': Valuation<V>, n: Op)
    requires InOrder(r.dst) && |s.d| == |r.dst|
  {
    && (n !in s.d ==> forall i :: v'(n, i) == v(n, i))
    && (forall j, i :: 0 <= j < |s.d| && s.d[j] == n ==>
          v'(n, i) == Eval(r.dst, s.d, sem, BoundInputs(s.bind, v), Out(j, i)))
  }

  /** Everything the main theorem assumes. */
  ghost predicate Setting<V(!new)>(r: Rule, ins: EdgeMap, s: Site, res: EdgeMap, sem: Meaning<V>,
                                   v: Valuation<V>, v': Valuation<V>)
  {
    && ValidSite(r, ins, s) && Arity(ins)
    && IsRewrite(r, ins, s, res)
    && SoundFor(r, s.f, s.d, sem)
    && Computes(ins, sem, v) && Computes(res, sem, v') && SameSources(v, v')
  }

  /** The source of an edge of the new graph that is reserved, or explained and listed, has the expected value. */
  lemma SourceExplained<V(!new)>(r: Rule, ins: EdgeMap, s: Site, res: EdgeMap, sem: Meaning<V>,
                                 v: Valuation<V>, v': Valuation<V>, e: Edge)
    requires Setting(r, ins, s, res, sem, v, v')
    requires exists n :: n in ins && n !in s.pos && e in ins[n]
    requires var e' := Rewired(r, s, e); Reserved(e'.srcOp) || Explained(r, s, sem, v, v', e'.srcOp)
    ensures var e' := Rewired(r, s, e); v'(e'.srcOp, e'.srcIdx) == v(e.srcOp, e.srcIdx)
  {
    if e.srcOp in s.pos {
      var q := (s.pos[e.srcOp], e.srcIdx);
      var t := r.outs[q];
      var x := BoundInputs(s.bind, v);
      SourceSide(r, ins, s.f, s.bind, sem, v, q.0, q.1);
      assert Eval(r.src, s.f, sem, x, Out(q.0, q.1)) == Eval(r.dst, s.d, sem, x, Out(t.0, t.1));
      assert Rewired(r, s, e).srcOp == s.d[t.0];
    } else {
      assert e.srcOp !in s.d;
    }
  }

  /** A kept operator whose new sources are all explained reads the same values as before. */
  lemma KeptReads<V(!new)>(r: Rule, ins: EdgeMap, s: Site, res: EdgeMap, sem: Meaning<V>,
                           v: Valuation<V>, v': Valuation<V>, n: Op)
    requires Setting(r, ins, s, res, sem, v, v')
    requires n in ins && n !in s.pos
    requires forall e :: e in ins[n] ==>
      var e' := Rewired(r, s, e); Reserved(e'.srcOp) || Explained(r, s, sem, v, v', e'.srcOp)
    ensures Reads(Get(res, n), v') == Reads(ins[n], v)
  {
    forall e | e in ins[n] ensures var e' := Rewired(r, s, e);
      e'.dstIdx == e.dstIdx && v'(e'.srcOp, e'.srcIdx) == v(e.srcOp, e.srcIdx) && e' in Get(res, n)
    {
      SourceExplained(r, ins, s, res, sem, v, v', e);
      assert Rewired(r, s, e) in KeptEdges(r, ins, s, n);
    }
    forall p | p in Reads(ins[n], v) ensures p in Reads(Get(res, n), v') {
      var e :| e in ins[n] && p == (e.dstIdx, v(e.srcOp, e.srcIdx));
      assert Rewired(r, s, e) in Get(res, n);
    }
    forall p | p in Reads(Get(res, n), v') ensures p in Reads(ins[n], v) {
      var e' :| e' in Get(res, n) && p == (e'.dstIdx, v'(e'.srcOp, e'.srcIdx));
      var e :| e in ins[n] && Rewired(r, s, e) == e';
    }
  }

  /** A created operator whose sources are all explained computes its pattern operator. */
  lemma CreatedReads<V(!new)>(r: Rule, ins: EdgeMap, s: Site, res: EdgeMap, sem: Meaning<V>,
                              v: Valuation<V>, v': Valuation<V>, j: nat)
    requires Setting(r, ins, s, res, sem, v, v')
    requires j < |s.d|
    requires forall e :: e in Get(res, s.d[j]) ==> Reserved(e.srcOp) || Explained(r, s, sem, v, v', e.srcOp)
    ensures Reads(Get(res, s.d[j]), v') == EvalInputs(r.dst, s.d, sem, BoundInputs(s.bind, v), j)
  {
    var x, inputs := BoundInputs(s.bind, v), r.dst[j].inputs;
    forall k | 0 <= k < |inputs|
      ensures inputs[k].Ext? ==> inputs[k].id in s.bind
      ensures var e := NewEdge(r, s, j, k);
        e in Get(res, s.d[j]) && e.dstIdx == k && v'(e.srcOp, e.srcIdx) == Eval(r.dst, s.d, sem, x, inputs[k])
    {
      if inputs[k].Ext? { DstBound(r, ins, s, j, k); }
      var e := NewEdge(r, s, j, k);
      assert e in CreatedEdges(r, ins, s, j);
      if inputs[k].Ext? { assert e.srcOp !in s.d; }
    }
    forall e | e in Get(res, s.d[j])
      ensures 0 <= e.dstIdx < |inputs| && v'(e.srcOp, e.srcIdx) == Eval(r.dst, s.d, sem, x, inputs[e.dstIdx])
    {
      var k :| 0 <= k < |inputs| && e == NewEdge(r, s, j, k);
    }
    forall k | 0 <= k < |inputs| ensures (k, Eval(r.dst, s.d, sem, x, inputs[k])) in Reads(Get(res, s.d[j]), v') {
      assert NewEdge(r, s, j, k) in Get(res, s.d[j]);
    }
  }

  /** Along a topological order of the new graph every node is explained. */
  lemma {:induction false} NodesExplained<V(!new)>(r: Rule, ins: EdgeMap, s: Site, res: EdgeMap, sem: Meaning<V>,
                                                   v: Valuation<V>, v': Valuation<V>, l: seq<Op>, q: nat)
    requires Setting(r, ins, s, res, sem, v, v')
    requires Topological(res, l) && q <= |l|
    ensures forall p :: 0 <= p < q ==> Explained(r, s, sem, v, v', l[p])
    decreases q
  {
    if q > 0 {
      NodesExplained(r, ins, s, res, sem, v, v', l, q - 1);
      var n := l[q - 1];
      assert n in l && n in res;
      forall e | e in Get(res, n) ensures Reserved(e.srcOp) || Explained(r, s, sem, v, v', e.srcOp) {
        if !Reserved(e.srcOp) {
          assert Counted(Unreserved, e.srcOp) && e in Get(res, l[q - 1]);
          assert e.srcOp in l[..q - 1];
        }
      }
      NodeExplained(r, ins, s, res, sem, v, v', n);
    }
  }

  lemma NodeExplained<V(!new)>(r: Rule, ins: EdgeMap, s: Site, res: EdgeMap, sem: Meaning<V>,
                               v: Valuation<V>, v': Valuation<V>, n: Op)
    requires Setting(r, ins, s, res, sem, v, v') && n in res
    requires forall e :: e in Get(res, n) ==> Reserved(e.srcOp) || Explained(r, s, sem, v, v', e.srcOp)
    ensures Explained(r, s, sem, v, v', n)
  {
    if n in s.d {
      var j :| 0 <= j < |s.d| && s.d[j] == n;
      CreatedReads(r, ins, s, res, sem, v, v', j);
      assert Get(res, n) == res[n];
      forall j', i | 0 <= j' < |s.d| && s.d[j'] == n
        ensures v'(n, i) == Eval(r.dst, s.d, sem, BoundInputs(s.bind, v), Out(j', i))
      {
        assert j' == j;
        assert v'(n, i) == sem(n, Reads(res[n], v'), i);
      }
    } else {
      forall e | e in ins[n] ensures var e' := Rewired(r, s, e);
        Reserved(e'.srcOp) || Explained(r, s, sem, v, v', e'.srcOp)
      {
        assert Rewired(r, s, e) in KeptEdges(r, ins, s, n);
      }
      KeptReads(r, ins, s, res, sem, v, v', n);
    }
  }

  /**
   Rewriting preserves meaning: if the new graph passes the loop test, every
   operator kept from the old graph has the value it had before.
   */
  lemma RewritePreservesMeaning<V(!new)>(r: Rule, ins: EdgeMap, s: Site, res: EdgeMap, sem: Meaning<V>,
                                         v: Valuation<V>, v': Valuation<V>)
    requires ValidSite(r, ins, s) && Arity(ins) && NodesAreNotReserved(ins) && IsRewrite(r, ins, s, res)
    requires SoundFor(r, s.f, s.d, sem)
    requires Computes(ins, sem, v) && Computes(res, sem, v') && SameSources(v, v')
    requires Closed(res) && Acyclic(res)
    ensures forall n, i :: n in ins && n in res ==> v'(n, i) == v(n, i)
  {
    RewriteKeepsShape(r, ins, s, res);
    var l := TopologicalExists(res);
    NodesExplained(r, ins, s, res, sem, v, v', l, |l|);
    forall n, i | n in ins && n in res ensures v'(n, i) == v(n, i) {
      assert n in l && n !in s.d;
    }
  }

  // ---------------------------------------------------------------------
  // Rewriting keeps the shape the next rewrite needs
  // ---------------------------------------------------------------------

  lemma RewriteKeepsShape(r: Rule, ins: EdgeMap, s: Site, res: EdgeMap)
    requires ValidSite(r, ins, s) && Arity(ins) && NodesAreNotReserved(ins) && IsRewrite(r, ins, s, res)
    ensures Keyed(res) && Arity(res) && NodesAreNotReserved(res)
  {
    forall n | n in res ensures OneEdgePerInput(n, res[n]) {
      if n in s.d {
        var j :| 0 <= j < |s.d| && s.d[j] == n;
        CreatedArity(r, ins, s, j);
      } else {
        KeptArity(r, ins, s, n);
      }
    }
  }

  lemma CreatedArity(r: Rule, ins: EdgeMap, s: Site, j: nat)
    requires ValidSite(r, ins, s) && j < |s.d|
    ensures OneEdgePerInput(s.d[j], CreatedEdges(r, ins, s, j))
  {
    var c := CreatedEdges(r, ins, s, j);
    forall k | 0 <= k < |r.dst[j].inputs| ensures FeedsInput(c, k) {
      if r.dst[j].inputs[k].Ext? { DstBound(r, ins, s, j, k); }
      assert NewEdge(r, s, j, k) in c;
    }
  }

  lemma KeptArity(r: Rule, ins: EdgeMap, s: Site, n: Op)
    requires ValidSite(r, ins, s) && Arity(ins) && n in ins && n !in s.pos
    ensures OneEdgePerInput(n, KeptEdges(r, ins, s, n))
  {
    var c := KeptEdges(r, ins, s, n);
    forall k | 0 <= k < n.numInputs ensures FeedsInput(c, k) {
      assert FeedsInput(ins[n], k);
      var e :| e in ins[n] && e.dstIdx == k;
      assert Rewired(r, s, e) in c;
    }
  }

  // ---------------------------------------------------------------------
  // Valuations exist and are unique, so meaning survives a whole run
  // ---------------------------------------------------------------------

  lemma {:induction false} ReadsDependsOnSources<V(!new)>(s: set<Edge>, v: Valuation<V>, v': Valuation<V>)
    requires forall e :: e in s ==> v(e.srcOp, e.srcIdx) == v'(e.srcOp, e.srcIdx)
    ensures Reads(s, v) == Reads(s, v')
  {
    forall p | p in Reads(s, v) ensures p in Reads(s, v') {
      var e :| e in s && p == (e.dstIdx, v(e.srcOp, e.srcIdx));
      assert p == (e.dstIdx, v'(e.srcOp, e.srcIdx));
    }
    forall p | p in Reads(s, v') ensures p in Reads(s, v) {
      var e :| e in s && p == (e.dstIdx, v'(e.srcOp, e.srcIdx));
      assert p == (e.dstIdx, v(e.srcOp, e.srcIdx));
    }
  }

  ghost function Assign<V>(v: Valuation<V>, n: Op, w: int -> V): Valuation<V> {
    (op, i) => if op == n then w(i) else v(op, i)
  }

  /** Evaluating the first q operators of a topological order. */
  lemma {:induction false} EvaluateAlong<V(!new)>(ins: EdgeMap, sem: Meaning<V>, env: Valuation<V>, l: seq<Op>, q: nat)
    returns (v: Valuation<V>)
    requires Topological(ins, l) && NodesAreNotReserved(ins) && q <= |l|
    ensures SameSources(env, v)
    ensures forall p, i :: 0 <= p < q ==> v(l[p], i) == sem(l[p], Reads(ins[l[p]], v), i)
    decreases q
  {
    assert forall p :: 0 <= p < |l| ==> l[p] in l;
    if q == 0 {
      v := env;
    } else {
      var u := EvaluateAlong(ins, sem, env, l, q - 1);
      var n := l[q - 1];
      var vals := Reads(ins[n], u);
      v := Assign(u, n, i => sem(n, vals, i));
      forall p | 0 <= p < q ensures Reads(ins[l[p]], v) == Reads(ins[l[p]], u) {
        forall e | e in ins[l[p]] ensures e.srcOp != n {
          if !Reserved(e.srcOp) {
            assert Counted(Unreserved, e.srcOp) && e in Get(ins, l[p]);
            assert e.srcOp in l[..p];
          }
        }
        ReadsDependsOnSources(ins[l[p]], v, u);
      }
    }
  }

  /** A graph that passes the loop test has a valuation, whatever its inputs and weights. */
  lemma ValuationExists<V(!new)>(ins: EdgeMap, sem: Meaning<V>, env: Valuation<V>) returns (v: Valuation<V>)
    requires NodesAreNotReserved(ins) && Closed(ins) && Acyclic(ins)
    ensures SameSources(env, v) && Computes(ins, sem, v)
  {
    var l := TopologicalExists(ins);
    v := EvaluateAlong(ins, sem, env, l, |l|);
    forall n, i | n in ins ensures v(n, i) == sem(n, Reads(ins[n], v), i) {
      assert n in l;
    }
  }

  /** One rewrite of an optimiser run. */
  datatype Rewriting = Rewriting(rule: Rule, site: Site, res: EdgeMap)

  /** A run of rewrites starting from `ins`: each at a valid site, sound, and past the loop test. */
  ghost predicate IsRun<V(!new)>(ins: EdgeMap, run: seq<Rewriting>, sem: Meaning<V>)
    decreases |run|
  {
    run == [] ||
    var h := run[0];
    && ValidSite(h.rule, ins, h.site) && IsRewrite(h.rule, ins, h.site, h.res)
    && SoundFor(h.rule, h.site.f, h.site.d, sem)
    && Closed(h.res) && Acyclic(h.res)
    && IsRun(h.res, run[1..], sem)
  }

  function Final(ins: EdgeMap, run: seq<Rewriting>): EdgeMap {
    if run == [] then ins else run[|run| - 1].res
  }

  /** An operator kept by every rewrite of a run has the same value in the last graph as in the first. */
  lemma {:induction false} RunPreservesMeaning<V(!new)>(ins: EdgeMap, run: seq<Rewriting>, sem: Meaning<V>,
                                                        v: Valuation<V>, v': Valuation<V>, n: Op, i: int)
    requires Arity(ins) && NodesAreNotReserved(ins) && Closed(ins) && Acyclic(ins) && IsRun(ins, run, sem)
    requires Computes(ins, sem, v) && Computes(Final(ins, run), sem, v') && SameSources(v, v')
    requires n in ins && forall h :: h in run ==> n in h.res
    ensures v'(n, i) == v(n, i)
    decreases |run|
  {
    if run == [] {
      ValuationUnique(ins, sem, v, v');
    } else {
      var h, rest := run[0], run[1..];
      RewriteKeepsShape(h.rule, ins, h.site, h.res);
      var u := ValuationExists(h.res, sem, v);
      RewritePreservesMeaning(h.rule, ins, h.site, h.res, sem, v, u);
      assert h in run;
      assert Final(ins, run) == Final(h.res, rest);
      RunPreservesMeaning(h.res, rest, sem, u, v', n, i);
    }
  }

  lemma {:induction false} AgreeAlong<V(!new)>(ins: EdgeMap, sem: Meaning<V>, v: Valuation<V>, v': Valuation<V>,
                                               l: seq<Op>, q: nat)
    requires Topological(ins, l) && q <= |l|
    requires Computes(ins, sem, v) && Computes(ins, sem, v') && SameSources(v, v')
    ensures forall p, i :: 0 <= p < q ==> v(l[p], i) == v'(l[p], i)
    decreases q
  {
    if q > 0 {
      AgreeAlong(ins, sem, v, v', l, q - 1);
      var n := l[q - 1];
      assert n in l;
      forall e | e in ins[n] ensures v(e.srcOp, e.srcIdx) == v'(e.srcOp, e.srcIdx) {
        if !Reserved(e.srcOp) {
          assert Counted(Unreserved, e.srcOp) && e in Get(ins, l[q - 1]);
          assert e.srcOp in l[..q - 1];
        }
      }
      ReadsDependsOnSources(ins[n], v, v');
    }
  }

  /** Inputs and weights determine the value of every node. */
  lemma ValuationUnique<V(!new)>(ins: EdgeMap, sem: Meaning<V>, v: Valuation<V>, v': Valuation<V>)
    requires NodesAreNotReserved(ins) && Closed(ins) && Acyclic(ins)
    requires Computes(ins, sem, v) && Computes(ins, sem, v') && SameSources(v, v')
    ensures forall n, i :: n in ins ==> v(n, i) == v'(n, i)
  {
    var l := TopologicalExists(ins);
    AgreeAlong(ins, sem, v, v', l, |l|);
    forall n, i | n in ins ensures v(n, i) == v'(n, i) {
      assert n in l;
    }
  }

  // ---------------------------------------------------------------------
  // The built-in fusion rule
  // ---------------------------------------------------------------------

  const OP_CONV2D := 3
  const OP_RELU := 8
  const PM_STRIDE_H := 6
  const PM_STRIDE_W := 7
  const PM_PAD := 8
  const PM_ACTI := 9

  /** conv2d without activation followed by relu becomes conv2d with activation. */
  function ConvReluRule(strideH: int, strideW: int, pad: int, none: int, relu: int): Rule {
    var common := [PMConstraint(EQ, PM_STRIDE_H, strideH), PMConstraint(EQ, PM_STRIDE_W, strideW),
                   PMConstraint(EQ, PM_PAD, pad)];
    Rule([OpX(OP_CONV2D, [Ext(10), Ext(11)], common + [PMConstraint(EQ, PM_ACTI, none)]),
          OpX(OP_RELU, [Out(0, 0)], [])],
         [OpX(OP_CONV2D, [Ext(10), Ext(11)], common + [PMConstraint(EQ, PM_ACTI, relu)])],
         map[(1, 0) := (0, 0)])
  }

  lemma ConvReluIsLinear(sh: int, sw: int, pad: int, none: int, relu: int)
    ensures var r := ConvReluRule(sh, sw, pad, none, relu); WellFormed(r) && Linear(r)
  {
    var r := ConvReluRule(sh, sw, pad, none, relu);
    assert |r.src| == 2 && |r.dst| == 1;
    assert r.src[0].inputs == r.dst[0].inputs == [Ext(10), Ext(11)] && r.src[1].inputs == [Out(0, 0)];
    forall id | UsesExt(r.dst, id) ensures UsesExt(r.src, id) {
      var i, k :| 0 <= i < |r.dst| && 0 <= k < |r.dst[i].inputs| && r.dst[i].inputs[k] == Ext(id);
      assert r.src[0].inputs[k] == Ext(id);
    }
  }

  /** Sound wherever the fused convolution computes relu of the plain one. */
  lemma ConvReluIsSound<V(!new)>(sh: int, sw: int, pad: int, none: int, relu: int,
                                 conv: Op, act: Op, fused: Op, sem: Meaning<V>)
    requires forall s: set<(int, V)> :: sem(fused, s, 0) == sem(act, {(0, sem(conv, s, 0))}, 0)
    ensures var r := ConvReluRule(sh, sw, pad, none, relu);
      WellFormed(r) && SoundFor(r, [conv, act], [fused], sem)
  {
    var r := ConvReluRule(sh, sw, pad, none, relu);
    ConvReluIsLinear(sh, sw, pad, none, relu);
    var f, d := [conv, act], [fused];
    forall x: int -> V
      ensures Eval(r.src, f, sem, x, Out(1, 0)) == Eval(r.dst, d, sem, x, Out(0, 0))
    {
      var s, s' := EvalInputs(r.src, f, sem, x, 0), EvalInputs(r.dst, d, sem, x, 0);
      assert r.src[0].inputs == r.dst[0].inputs == [Ext(10), Ext(11)];
      assert s == {(0, x(10)), (1, x(11))} by { TwoExtInputs(r.src, f, sem, x, 0, 10, 11); }
      assert s' == {(0, x(10)), (1, x(11))} by { TwoExtInputs(r.dst, d, sem, x, 0, 10, 11); }
      OneInput(r.src, f, sem, x, 1);
    }
  }

  lemma TwoExtInputs<V(!new)>(xs: seq<OpX>, ops: seq<Op>, sem: Meaning<V>, x: int -> V, j: nat, a: int, b: int)
    requires InOrder(xs) && |ops| == |xs| && j < |xs| && xs[j].inputs == [Ext(a), Ext(b)]
    ensures EvalInputs(xs, ops, sem, x, j) == {(0, x(a)), (1, x(b))}
  {
    assert xs[j].inputs[0] == Ext(a) && xs[j].inputs[1] == Ext(b);
  }

  lemma OneInput<V(!new)>(xs: seq<OpX>, ops: seq<Op>, sem: Meaning<V>, x: int -> V, j: nat)
    requires InOrder(xs) && |ops| == |xs| && j < |xs| && |xs[j].inputs| == 1
    ensures EvalInputs(xs, ops, sem, x, j) == {(0, Eval(xs, ops, sem, x, xs[j].inputs[0]))}
  {
  }
}
