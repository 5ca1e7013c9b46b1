/**
 Substitution rules and the matching state of GraphXfer: what can_match, match
 and unmatch do to `mapOp`, `mappedOps` and `mappedInputs`, and when unmatch
 really undoes match.
 */
module Rules {
  import opened Graphs

  /** A tensor of a pattern: an external input, or output `idx` of the pattern's operator number `op`. */
  datatype TensorX = Ext(id: int) | Out(op: nat, idx: int)

  datatype Compare = EQ | NE | LT | LE | GT | GE

  datatype PMConstraint = PMConstraint(comp: Compare, para: int, value: int)

  datatype OpX = OpX(kind: int, inputs: seq<TensorX>, pm: seq<PMConstraint>)

  /** `outs` maps an output of the source pattern to the output of the target pattern that replaces it. */
  datatype Rule = Rule(src: seq<OpX>, dst: seq<OpX>, outs: map<(nat, int), (nat, int)>)

  /** Operators are created in order, so a pattern only refers back to earlier operators. */
  predicate InOrder(ops: seq<OpX>) {
    forall i, k :: 0 <= i < |ops| && 0 <= k < |ops[i].inputs| && ops[i].inputs[k].Out? ==> ops[i].inputs[k].op < i
  }

  ghost predicate UsesExt(ops: seq<OpX>, id: int) {
    exists i, k :: 0 <= i < |ops| && 0 <= k < |ops[i].inputs| && ops[i].inputs[k] == Ext(id)
  }

  /** What the rule loader asserts. */
  ghost predicate WellFormed(r: Rule) {
    && InOrder(r.src) && InOrder(r.dst)
    && (forall id :: UsesExt(r.dst, id) ==> UsesExt(r.src, id))
    && (forall s :: s in r.outs ==> s.0 < |r.src| && r.outs[s].0 < |r.dst|)
  }

  /** No external input is read twice in the source pattern. */
  ghost predicate Linear(r: Rule) {
    forall i, k, i', k' ::
      0 <= i < |r.src| && 0 <= k < |r.src[i].inputs| && 0 <= i' < |r.src| && 0 <= k' < |r.src[i'].inputs|
      && r.src[i].inputs[k].Ext? && r.src[i].inputs[k] == r.src[i'].inputs[k']
      ==> i == i' && k == k'
  }

  // ---------------------------------------------------------------------
  // Graphs in which every operator has one edge per input
  // ---------------------------------------------------------------------

  ghost predicate OneEdgePerInput(n: Op, s: set<Edge>) {
    && (forall e :: e in s ==> e.dstOp == n && 0 <= e.dstIdx < n.numInputs)
    && (forall e, f :: e in s && f in s && e.dstIdx == f.dstIdx ==> e == f)
    && (forall k :: 0 <= k < n.numInputs ==> FeedsInput(s, k))
  }

  ghost predicate FeedsInput(s: set<Edge>, k: int) {
    exists e :: e in s && e.dstIdx == k
  }

  ghost predicate Arity(ins: EdgeMap) {
    forall n :: n in ins ==> OneEdgePerInput(n, ins[n])
  }

  /** The producer of input `k`. */
  ghost function SourceAt(s: set<Edge>, k: int): (r: (Op, int))
    requires FeedsInput(s, k)
    ensures exists e :: e in s && e.dstIdx == k && r == (e.srcOp, e.srcIdx)
  {
    var e :| e in s && e.dstIdx == k;
    (e.srcOp, e.srcIdx)
  }

  lemma SourceIsUnique(n: Op, s: set<Edge>, e: Edge)
    requires OneEdgePerInput(n, s) && e in s
    ensures FeedsInput(s, e.dstIdx) && SourceAt(s, e.dstIdx) == (e.srcOp, e.srcIdx)
  {
  }

  // ---------------------------------------------------------------------
  // The matching state
  // ---------------------------------------------------------------------

  type Bindings = map<int, seq<(Op, int)>>

  /** `mapOp[i]` is the operator matched to source pattern operator `i`; `mappedOps` is its inverse. */
  datatype Matching = Matching(mapOp: seq<Op>, mappedOps: map<Op, nat>, mappedInputs: Bindings)

  predicate Satisfies(c: PMConstraint, actual: int) {
    match c.comp
    case EQ => actual == c.value
    case NE => actual != c.value
    case LT => actual < c.value
    case LE => actual <= c.value
    case GT => actual > c.value
    case GE => actual >= c.value
  }

  /** Type, number of inputs and parameter constraints. */
  predicate Fits(x: OpX, op: Op) {
    && x.kind == op.kind
    && |x.inputs| == op.numInputs
    && forall c :: c in x.pm ==> c.para in op.params && Satisfies(c, op.params[c.para])
  }

  /** The source `can_match` compares input `k` with: a binding made earlier, or one made by an earlier input. */
  ghost function Expected(x: OpX, mi: Bindings, s: set<Edge>, k: nat): (r: (Op, int))
    requires k < |x.inputs| && x.inputs[k].Ext?
    requires forall j :: 0 <= j < |x.inputs| ==> FeedsInput(s, j)
  {
    var id := x.inputs[k].id;
    if id in mi && mi[id] != [] then mi[id][0]
    else if exists j :: 0 <= j < k && x.inputs[j] == Ext(id) then
      var j := FirstUse(x.inputs, id); SourceAt(s, j)
    else SourceAt(s, k)
  }

  ghost function FirstUse(inputs: seq<TensorX>, id: int): (j: nat)
    requires Ext(id) in inputs
    ensures j < |inputs| && inputs[j] == Ext(id) && forall i :: 0 <= i < j ==> inputs[i] != Ext(id)
  {
    if inputs[0] == Ext(id) then 0 else 1 + FirstUse(inputs[1..], id)
  }

  ghost predicate InputAgrees(x: OpX, m: Matching, s: set<Edge>, op: Op, k: nat)
    requires k < |x.inputs|
    requires forall j :: 0 <= j < |x.inputs| ==> FeedsInput(s, j)
  {
    match x.inputs[k]
    case Ext(_) => var p := Expected(x, m.mappedInputs, s, k); Edge(p.0, op, p.1, k) in s
    case Out(j, idx) => j < |m.mapOp| && Edge(m.mapOp[j], op, idx, k) in s
  }

  /** What `can_match` answers for source operator number |m.mapOp|. */
  ghost predicate CanMatch(x: OpX, m: Matching, s: set<Edge>, op: Op)
    requires OneEdgePerInput(op, s)
  {
    Fits(x, op) && forall k :: 0 <= k < |x.inputs| ==> InputAgrees(x, m, s, op, k)
  }

  /** `match` appends, for every external input in turn, its producer to the binding list. */
  ghost function Bind(inputs: seq<TensorX>, n: nat, s: set<Edge>, mi: Bindings): Bindings
    requires n <= |inputs|
    requires forall j :: 0 <= j < n ==> FeedsInput(s, j)
  {
    if n == 0 then mi
    else
      var b := Bind(inputs, n - 1, s, mi);
      match inputs[n - 1]
      case Ext(id) => b[id := if id in b then b[id] + [SourceAt(s, n - 1)] else [SourceAt(s, n - 1)]]
      case Out(_, _) => b
  }

  datatype Unbound = KeyError | Restored(b: Bindings)

  /** `unmatch` deletes the whole binding list of every external input in turn. */
  function Unbind(inputs: seq<TensorX>, n: nat, mi: Bindings): Unbound
    requires n <= |inputs|
  {
    if n == 0 then Restored(mi)
    else
      match Unbind(inputs, n - 1, mi)
      case KeyError => KeyError
      case Restored(b) =>
        match inputs[n - 1]
        case Ext(id) => if id in b then Restored(b - {id}) else KeyError
        case Out(_, _) => Restored(b)
  }

  /** The external inputs among the first `n`. */
  function ExtIds(inputs: seq<TensorX>, n: nat): set<int>
    requires n <= |inputs|
  {
    set k | 0 <= k < n && inputs[k].Ext? :: inputs[k].id
  }

  /** The operator reads no external input twice. */
  ghost predicate DistinctExt(inputs: seq<TensorX>) {
    forall j, k :: 0 <= j < k < |inputs| && inputs[j].Ext? ==> inputs[j] != inputs[k]
  }

  lemma ExtIdsStep(inputs: seq<TensorX>, n: nat)
    requires n < |inputs|
    ensures ExtIds(inputs, n + 1) == ExtIds(inputs, n) + (if inputs[n].Ext? then {inputs[n].id} else {})
  {
    forall id | id in ExtIds(inputs, n) ensures id in ExtIds(inputs, n + 1) {
      var k :| 0 <= k < n && inputs[k].Ext? && inputs[k].id == id;
    }
  }

  lemma {:induction false} BindKeys(inputs: seq<TensorX>, n: nat, s: set<Edge>, mi: Bindings)
    requires n <= |inputs|
    requires forall j :: 0 <= j < n ==> FeedsInput(s, j)
    ensures Bind(inputs, n, s, mi).Keys == mi.Keys + ExtIds(inputs, n)
    ensures forall id :: id in mi && id !in ExtIds(inputs, n) ==> Bind(inputs, n, s, mi)[id] == mi[id]
    ensures forall id :: id in mi ==> mi[id] <= Bind(inputs, n, s, mi)[id]
    ensures forall id :: id in ExtIds(inputs, n) && id !in mi ==>
      |Bind(inputs, n, s, mi)[id]| > 0
  {
    if n > 0 {
      BindKeys(inputs, n - 1, s, mi);
      ExtIdsStep(inputs, n - 1);
    }
  }

  /** Unbind removes every external input, and fails exactly when one is missing or named twice. */
  lemma {:induction false} UnbindRemoves(inputs: seq<TensorX>, n: nat, mi: Bindings)
    requires n <= |inputs|
    ensures Unbind(inputs, n, mi).Restored? ==> Unbind(inputs, n, mi).b == mi - ExtIds(inputs, n)
    ensures Unbind(inputs, n, mi).Restored? <==>
      ExtIds(inputs, n) <= mi.Keys
      && forall j, k :: 0 <= j < k < n && inputs[j].Ext? ==> inputs[j] != inputs[k]
  {
    if n > 0 {
      UnbindRemoves(inputs, n - 1, mi);
      ExtIdsStep(inputs, n - 1);
      var u := Unbind(inputs, n - 1, mi);
      if u.Restored? && inputs[n - 1].Ext? {
        var id := inputs[n - 1].id;
        assert id in u.b <==> id in mi && id !in ExtIds(inputs, n - 1);
        assert id in ExtIds(inputs, n - 1) <==> exists j :: 0 <= j < n - 1 && inputs[j] == inputs[n - 1];
        assert (mi - ExtIds(inputs, n - 1)) - {id} == mi - ExtIds(inputs, n);
      }
    }
  }

  /**
   Backtracking restores the bindings exactly when the operator's external
   inputs are pairwise distinct and none was bound before.
   */
  lemma UnmatchUndoesMatch(inputs: seq<TensorX>, s: set<Edge>, mi: Bindings)
    requires forall j :: 0 <= j < |inputs| ==> FeedsInput(s, j)
    ensures Unbind(inputs, |inputs|, Bind(inputs, |inputs|, s, mi)) == Restored(mi)
      <==> DistinctExt(inputs) && ExtIds(inputs, |inputs|) !! mi.Keys
  {
    var n := |inputs|;
    var b := Bind(inputs, n, s, mi);
    BindKeys(inputs, n, s, mi);
    UnbindRemoves(inputs, n, b);
    if DistinctExt(inputs) {
      var out := b - ExtIds(inputs, n);
      if ExtIds(inputs, n) !! mi.Keys {
        assert out.Keys == mi.Keys;
        assert forall id :: id in mi ==> out[id] == mi[id];
      } else {
        var id :| id in ExtIds(inputs, n) && id in mi;
        assert id !in out;
      }
    }
  }

  // ---------------------------------------------------------------------
  // Embeddings
  // ---------------------------------------------------------------------

  /** Input `k` of pattern operator `i` is fed in the graph as the pattern says. */
  ghost predicate InputEmbedded(r: Rule, ins: EdgeMap, f: seq<Op>, bind: map<int, (Op, int)>, i: nat, k: nat)
    requires i < |f| && i < |r.src| && k < |r.src[i].inputs|
  {
    match r.src[i].inputs[k]
    case Ext(id) => id in bind && Edge(bind[id].0, f[i], bind[id].1, k) in Get(ins, f[i])
    case Out(j, idx) => j < |f| && Edge(f[j], f[i], idx, k) in Get(ins, f[i])
  }

  /** `f` places the first |f| source operators in the graph, with external inputs bound by `bind`. */
  ghost predicate Embeds(r: Rule, ins: EdgeMap, f: seq<Op>, bind: map<int, (Op, int)>) {
    && |f| <= |r.src|
    && NoDup(f)
    && (forall i :: 0 <= i < |f| ==> f[i] in ins && Fits(r.src[i], f[i]))
    && (forall i, k :: 0 <= i < |f| && 0 <= k < |r.src[i].inputs| ==> InputEmbedded(r, ins, f, bind, i, k))
  }

  /** A whole source pattern found in the graph. */
  ghost predicate Embedding(r: Rule, ins: EdgeMap, f: seq<Op>, bind: map<int, (Op, int)>) {
    |f| == |r.src| && Embeds(r, ins, f, bind)
  }

  // ---------------------------------------------------------------------
  // A rule that reads an input twice can be matched wrongly after backtracking
  // ---------------------------------------------------------------------

  /** Pattern: a = add(x, y); m = mul(x, a).  The input x is read by both operators. */
  const SharedInputRule := Rule([OpX(16, [Ext(10), Ext(11)], []), OpX(17, [Ext(10), Out(0, 0)], [])], [], map[])

  const InputTensor := Op(GUID_INPUT, OP_INPUT, 0, map[])
  const AddOp := Op(100, 16, 2, map[])
  const MulOp := Op(101, 17, 2, map[])
  const OtherMulOp := Op(102, 17, 2, map[])

  /** a = add(x, y), mul(x, a), and mul(z, a) with another tensor z. */
  const AddEdges := {Edge(InputTensor, AddOp, 0, 0), Edge(InputTensor, AddOp, 1, 1)}
  const MulEdges := {Edge(InputTensor, MulOp, 0, 0), Edge(AddOp, MulOp, 0, 1)}
  const OtherMulEdges := {Edge(InputTensor, OtherMulOp, 2, 0), Edge(AddOp, OtherMulOp, 0, 1)}

  const SharedInputGraph: EdgeMap := map[AddOp := AddEdges, MulOp := MulEdges, OtherMulOp := OtherMulEdges]

  const AfterAdd := Matching([AddOp], map[AddOp := 0], map[10 := [(InputTensor, 0)], 11 := [(InputTensor, 1)]])

  lemma TwoInputs(n: Op, e0: Edge, e1: Edge)
    requires n.numInputs == 2 && e0.dstOp == n && e1.dstOp == n && e0.dstIdx == 0 && e1.dstIdx == 1
    ensures OneEdgePerInput(n, {e0, e1})
    ensures FeedsInput({e0, e1}, 0) && SourceAt({e0, e1}, 0) == (e0.srcOp, e0.srcIdx)
    ensures FeedsInput({e0, e1}, 1) && SourceAt({e0, e1}, 1) == (e1.srcOp, e1.srcIdx)
  {
    assert e0 in {e0, e1} && e1 in {e0, e1};
  }

  /** What matching one two-input operator does to the bindings. */
  lemma BindTwo(inputs: seq<TensorX>, s: set<Edge>, b: Bindings)
    requires |inputs| == 2 && FeedsInput(s, 0) && FeedsInput(s, 1) && inputs[0].Ext?
    ensures var id := inputs[0].id;
      var b1 := b[id := if id in b then b[id] + [SourceAt(s, 0)] else [SourceAt(s, 0)]];
      && (inputs[1].Out? ==> Bind(inputs, 2, s, b) == b1)
      && (inputs[1].Ext? ==> var id' := inputs[1].id;
            Bind(inputs, 2, s, b) == b1[id' := if id' in b1 then b1[id'] + [SourceAt(s, 1)] else [SourceAt(s, 1)]])
  {
    assert Bind(inputs, 0, s, b) == b;
    assert Bind(inputs, 1, s, b).Keys == b.Keys + {inputs[0].id};
  }

  /** Matching `add` binds both inputs. */
  lemma ExampleAddMatches()
    ensures OneEdgePerInput(AddOp, AddEdges)
    ensures CanMatch(SharedInputRule.src[0], Matching([], map[], map[]), AddEdges, AddOp)
    ensures Bind(SharedInputRule.src[0].inputs, 2, AddEdges, map[]) == AfterAdd.mappedInputs
  {
    TwoInputs(AddOp, Edge(InputTensor, AddOp, 0, 0), Edge(InputTensor, AddOp, 1, 1));
    BindTwo(SharedInputRule.src[0].inputs, AddEdges, map[]);
  }

  /** At that point mul(x, a) fits and mul(z, a) does not. */
  lemma ExampleBeforeBacktracking()
    ensures OneEdgePerInput(MulOp, MulEdges) && OneEdgePerInput(OtherMulOp, OtherMulEdges)
    ensures CanMatch(SharedInputRule.src[1], AfterAdd, MulEdges, MulOp)
    ensures !CanMatch(SharedInputRule.src[1], AfterAdd, OtherMulEdges, OtherMulOp)
  {
    TwoInputs(MulOp, Edge(InputTensor, MulOp, 0, 0), Edge(AddOp, MulOp, 0, 1));
    TwoInputs(OtherMulOp, Edge(InputTensor, OtherMulOp, 2, 0), Edge(AddOp, OtherMulOp, 0, 1));
    assert !InputAgrees(SharedInputRule.src[1], AfterAdd, OtherMulEdges, OtherMulOp, 0);
  }

  /** Matching and unmatching mul(x, a) loses the binding of x. */
  lemma ExampleLostBinding()
    ensures FeedsInput(MulEdges, 0) && FeedsInput(MulEdges, 1)
    ensures Unbind(SharedInputRule.src[1].inputs, 2, Bind(SharedInputRule.src[1].inputs, 2, MulEdges, AfterAdd.mappedInputs))
      == Restored(map[11 := [(InputTensor, 1)]])
  {
    TwoInputs(MulOp, Edge(InputTensor, MulOp, 0, 0), Edge(AddOp, MulOp, 0, 1));
    var inputs, b1 := SharedInputRule.src[1].inputs, AfterAdd.mappedInputs;
    BindTwo(inputs, MulEdges, b1);
    var b2 := Bind(inputs, 2, MulEdges, b1);
    assert Unbind(inputs, 0, b2) == Restored(b2);
    assert Unbind(inputs, 1, b2) == Restored(b2 - {10});
    assert b2 - {10} == map[11 := [(InputTensor, 1)]];
  }

  /** Without the binding of x mul(z, a) fits. */
  lemma ExampleOtherFits()
    ensures AfterAdd.mappedInputs != map[11 := [(InputTensor, 1)]]
    ensures CanMatch(SharedInputRule.src[1], AfterAdd.(mappedInputs := map[11 := [(InputTensor, 1)]]), OtherMulEdges, OtherMulOp)
  {
    TwoInputs(OtherMulOp, Edge(InputTensor, OtherMulOp, 2, 0), Edge(AddOp, OtherMulOp, 0, 1));
    assert 10 in AfterAdd.mappedInputs && 10 !in map[11 := [(InputTensor, 1)]];
  }

  /**
   Matching `add` first leads to AfterAdd, where mul(x, a) fits and mul(z, a) is refused.
   After mul(x, a) was matched and unmatched, mul(z, a) is accepted, although no choice of
   bindings makes add and mul(z, a) an embedding of the rule.
   */
  lemma BacktrackingAcceptsNonEmbedding()
    ensures OneEdgePerInput(AddOp, AddEdges) && OneEdgePerInput(MulOp, MulEdges) && OneEdgePerInput(OtherMulOp, OtherMulEdges)
    ensures CanMatch(SharedInputRule.src[0], Matching([], map[], map[]), AddEdges, AddOp)
    ensures AfterAdd == Matching([AddOp], map[AddOp := 0], Bind(SharedInputRule.src[0].inputs, 2, AddEdges, map[]))
    ensures CanMatch(SharedInputRule.src[1], AfterAdd, MulEdges, MulOp)
    ensures !CanMatch(SharedInputRule.src[1], AfterAdd, OtherMulEdges, OtherMulOp)
    ensures var b := Unbind(SharedInputRule.src[1].inputs, 2,
                            Bind(SharedInputRule.src[1].inputs, 2, MulEdges, AfterAdd.mappedInputs));
      && b.Restored? && b.b != AfterAdd.mappedInputs
      && CanMatch(SharedInputRule.src[1], AfterAdd.(mappedInputs := b.b), OtherMulEdges, OtherMulOp)
    ensures forall bind :: !Embedding(SharedInputRule, SharedInputGraph, [AddOp, OtherMulOp], bind)
  {
    ExampleAddMatches();
    ExampleBeforeBacktracking();
    ExampleLostBinding();
    ExampleOtherFits();
    forall bind ensures !Embedding(SharedInputRule, SharedInputGraph, [AddOp, OtherMulOp], bind) {
      ExampleNotEmbedded(bind);
    }
  }

  /** x would have to be tensor 0 for `add` and tensor 2 for the other `mul`. */
  lemma ExampleNotEmbedded(bind: map<int, (Op, int)>)
    ensures !Embedding(SharedInputRule, SharedInputGraph, [AddOp, OtherMulOp], bind)
  {
    var f := [AddOp, OtherMulOp];
    assert InputEmbedded(SharedInputRule, SharedInputGraph, f, bind, 0, 0) ==> 10 in bind && bind[10].1 == 0;
    assert InputEmbedded(SharedInputRule, SharedInputGraph, f, bind, 1, 0) ==> 10 in bind && bind[10].1 == 2;
  }
}
