/**
 The shared index: inserting, vacuuming, cleaning and scanning processes run one
 atomic action at a time, in any order.  An action is what a process does between
 taking a page lock and releasing it.  The metapage's exclusive lock is the one
 lock that is kept across actions, so it is part of the state.
 */
module BloomIndexes {
  import opened BloomSignatures
  import opened BloomPages
  import opened Maybes

  type Pid = nat

  /** Tuples that fit on a page, and entries that fit in the metapage's list. */
  datatype Config = Config(cap: nat, slots: nat)

  datatype Page = MetaPage | New | Data(deleted: bool, items: seq<BloomTuple>)

  /** The list of pages with room; entries before `nStart` are used up. */
  datatype Meta = Meta(nStart: nat, notFull: seq<nat>)

  datatype Proc =
    | TryFirst(t: BloomTuple, blk: nat)
    | WantMeta(t: BloomTuple, tried: Maybe<nat>)
    | Walking(t: BloomTuple, pos: nat)
    | Popped(t: BloomTuple, pos: nat, blk: nat)
    | Extended(t: BloomTuple, blk: nat)
    | Vacuuming(dead: set<TID>, blk: nat, npages: nat, found: seq<nat>, since: set<BloomTuple>)
    | Cleaning(blk: nat, npages: nat)
    | Scanning(q: Sign, blk: nat, snapshot: seq<Page>, result: set<TID>, gone: set<BloomTuple>)

  /**
   `inserted` and `removed` are history: the tuples of the inserts that have returned
   and the tuples vacuum has taken out.
   */
  datatype State = State(pages: seq<Page>, meta: Meta, fsm: set<nat>, holder: Maybe<Pid>,
                         procs: map<Pid, Proc>,
                         inserted: multiset<BloomTuple>, removed: multiset<BloomTuple>)

  datatype Action =
    | BeginInsert(pid: Pid, tuple: BloomTuple)
    | TryHead(pid: Pid)
    | LockMeta(pid: Pid)
    | Walk(pid: Pid)
    | PopFree(pid: Pid, block: nat)
    | TestFree(pid: Pid, locked: bool)
    | ExtendFile(pid: Pid)
    | InitExtended(pid: Pid)
    | BeginVacuum(pid: Pid, tids: set<TID>)
    | VacuumPage(pid: Pid)
    | EndVacuum(pid: Pid)
    | BeginCleanup(pid: Pid)
    | CleanPage(pid: Pid)
    | BeginScan(pid: Pid, sign: Sign)
    | ScanPage(pid: Pid)
    | Finish(pid: Pid)
    | Abort(pid: Pid)
    | LoseFree(pid: Pid, block: nat)

  // ---------------------------------------------------------------------
  // What an action does to the pages
  // ---------------------------------------------------------------------

  /** Put adds to a page; Init makes a page anew, whatever it held, with one tuple on it. */
  datatype Effect = Same | Grow | Put(at: nat, t: BloomTuple) | Init(at: nat, t: BloomTuple) | Purge(at: nat, dead: set<TID>)

  function Items(p: Page): seq<BloomTuple> {
    if p.Data? then p.items else []
  }

  predicate Reusable(p: Page) { p.New? || (p.Data? && p.deleted) }

  /** What code that looks at a page sees on it: a new or deleted page is initialised, or passed over. */
  function Live(p: Page): seq<BloomTuple> {
    if Reusable(p) then [] else Items(p)
  }

  predicate EffectOk(c: Config, pages: seq<Page>, e: Effect) {
    match e
    case Same => true
    case Grow => true
    case Put(at, _) => 0 < at < |pages| && |Live(pages[at])| < c.cap
    case Init(at, _) => c.cap > 0 && 0 < at < |pages| && Reusable(pages[at])
    case Purge(at, _) => 0 < at < |pages| && pages[at].Data? && !pages[at].deleted
  }

  /** A purged page is marked deleted when the purge emptied it. */
  function PurgedPage(items: seq<BloomTuple>, dead: set<TID>): Page {
    var kept := Survivors(items, dead);
    Data(|kept| < |items| && kept == [], kept)
  }

  function NewPages(pages: seq<Page>, e: Effect): seq<Page> {
    match e
    case Same => pages
    case Grow => pages + [New]
    case Put(at, t) => if at < |pages| then pages[at := Data(false, Live(pages[at]) + [t])] else pages
    case Init(at, t) => if at < |pages| then pages[at := Data(false, [t])] else pages
    case Purge(at, dead) => if at < |pages| then pages[at := PurgedPage(Items(pages[at]), dead)] else pages
  }

  function Taken(items: seq<BloomTuple>, dead: set<TID>): multiset<BloomTuple> {
    multiset(items) - multiset(Survivors(items, dead))
  }

  /** The tuples an effect takes out of the index. */
  function Out(pages: seq<Page>, e: Effect): multiset<BloomTuple> {
    if e.Purge? && e.at < |pages| then Taken(Items(pages[e.at]), e.dead) else multiset{}
  }

  function In(e: Effect): multiset<BloomTuple> {
    if e.Put? || e.Init? then multiset{e.t} else multiset{}
  }

  function SetOf(m: multiset<BloomTuple>): set<BloomTuple> { set t | t in m }

  /** Running vacuums remember what was put since they began, running scans what was taken out. */
  function Observe(pr: Proc, pages: seq<Page>, e: Effect): Proc {
    match pr
    case Vacuuming(_, _, _, _, since) => pr.(since := since + SetOf(In(e)))
    case Scanning(_, _, _, _, gone) => pr.(gone := gone + SetOf(Out(pages, e)))
    case _ => pr
  }

  // ---------------------------------------------------------------------
  // Actions
  // ---------------------------------------------------------------------

  /** The outcome of an action; `proc` is what the acting process becomes. */
  datatype Delta = Delta(effect: Effect, meta: Meta, fsm: set<nat>, holder: Maybe<Pid>, proc: Maybe<Proc>)

  function Become(s: State, pr: Proc): Delta {
    Delta(Same, s.meta, s.fsm, s.holder, Just(pr))
  }

  /** Where a walk starts: past the first entry if that page was already tried. */
  function WalkFrom(meta: Meta, tried: Maybe<nat>): nat {
    if meta.nStart < |meta.notFull| && tried == Just(meta.notFull[meta.nStart]) then meta.nStart + 1 else meta.nStart
  }

  /** The page goes to a new list of its own; the metapage lock is released. */
  function PutOnNewPage(s: State, blk: nat, t: BloomTuple): Delta {
    Delta(Init(blk, t), Meta(0, [blk]), s.fsm, Nothing, Nothing)
  }

  function Insert(c: Config, s: State, pr: Proc, a: Action): Maybe<Delta>
    requires pr.TryFirst? || pr.WantMeta? || pr.Walking? || pr.Popped? || pr.Extended?
  {
    match pr
    case TryFirst(t, blk) =>
      if !a.TryHead? || blk >= |s.pages| then Nothing
      else if |Live(s.pages[blk])| < c.cap then Just(Delta(Put(blk, t), s.meta, s.fsm, s.holder, Nothing))
      else Just(Become(s, WantMeta(t, Just(blk))))
    case WantMeta(t, tried) =>
      if !a.LockMeta? || s.holder != Nothing then Nothing
      else Just(Delta(Same, s.meta, s.fsm, Just(a.pid), Just(Walking(t, WalkFrom(s.meta, tried)))))
    case Walking(t, pos) =>
      if pos < |s.meta.notFull| then
        var blk := s.meta.notFull[pos];
        if !a.Walk? || blk >= |s.pages| then Nothing
        else if |Live(s.pages[blk])| < c.cap then
          Just(Delta(Put(blk, t), s.meta.(nStart := pos), s.fsm, Nothing, Nothing))
        else Just(Become(s, Walking(t, pos + 1)))
      else if a.PopFree? && a.block in s.fsm then
        Just(Delta(Same, s.meta, s.fsm - {a.block}, s.holder, Just(Popped(t, pos, a.block))))
      else if a.ExtendFile? && s.fsm == {} then
        Just(Delta(Grow, s.meta, s.fsm, s.holder, Just(Extended(t, |s.pages|))))
      else Nothing
    case Popped(t, pos, blk) =>
      if !a.TestFree? || blk >= |s.pages| then Nothing
      else if a.locked && Reusable(s.pages[blk]) then Just(PutOnNewPage(s, blk, t))
      else Just(Become(s, Walking(t, pos)))
    case Extended(t, blk) =>
      if a.InitExtended? then Just(PutOnNewPage(s, blk, t)) else Nothing
  }

  function Vacuum(c: Config, s: State, pr: Proc, a: Action): Maybe<Delta>
    requires pr.Vacuuming?
  {
    if a.VacuumPage? && 0 < pr.blk < pr.npages && pr.blk < |s.pages| then
      var p := s.pages[pr.blk];
      if Reusable(p) || p.MetaPage? then
        Just(Become(s, Vacuuming(pr.dead, pr.blk + 1, pr.npages, pr.found, pr.since)))
      else
        var left := |Survivors(p.items, pr.dead)|;
        var room := left != 0 && left < c.cap && |pr.found| < c.slots;
        var found := if room then pr.found + [pr.blk] else pr.found;
        Just(Delta(Purge(pr.blk, pr.dead), s.meta, s.fsm, s.holder,
                   Just(Vacuuming(pr.dead, pr.blk + 1, pr.npages, found, pr.since))))
    else if a.EndVacuum? && pr.blk == pr.npages && s.holder == Nothing then
      Just(Delta(Same, Meta(0, pr.found), s.fsm, Nothing, Nothing))
    else Nothing
  }

  function Sweep(s: State, pr: Proc, a: Action): Maybe<Delta>
    requires pr.Cleaning? || pr.Scanning?
  {
    match pr
    case Cleaning(blk, npages) =>
      if a.CleanPage? && blk < npages && blk < |s.pages| then
        Just(Delta(Same, s.meta, if Reusable(s.pages[blk]) then s.fsm + {blk} else s.fsm, s.holder,
                   Just(Cleaning(blk + 1, npages))))
      else if a.Finish? && blk == npages then Just(Delta(Same, s.meta, s.fsm, s.holder, Nothing))
      else Nothing
    case Scanning(q, blk, snapshot, result, gone) =>
      if a.ScanPage? && blk < |snapshot| && blk < |s.pages| then
        Just(Become(s, Scanning(q, blk + 1, snapshot, result + Hits(s.pages[blk], q), gone)))
      else if a.Finish? && blk == |snapshot| then Just(Delta(Same, s.meta, s.fsm, s.holder, Nothing))
      else Nothing
  }

  /** The rows of a page's matching tuples. */
  function Hits(p: Page, q: Sign): set<TID> {
    set t | t in Live(p) && Matches(t.sign, q) :: t.tid
  }

  function Begin(s: State, a: Action): Maybe<Delta> {
    match a
    case BeginInsert(_, t) =>
      if s.holder != Nothing then Nothing
      else if s.meta.nStart < |s.meta.notFull| then Just(Become(s, TryFirst(t, s.meta.notFull[s.meta.nStart])))
      else Just(Become(s, WantMeta(t, Nothing)))
    case BeginVacuum(_, tids) => Just(Become(s, Vacuuming(tids, 1, |s.pages|, [], {})))
    case BeginCleanup(_) => Just(Become(s, Cleaning(1, |s.pages|)))
    case BeginScan(_, q) => Just(Become(s, Scanning(q, 1, s.pages, {}, {})))
    case LoseFree(_, block) => Just(Delta(Same, s.meta, s.fsm - {block}, s.holder, Nothing))
    case _ => Nothing
  }

  /** What an action does in a state, or Nothing where the process cannot take it. */
  function Act(c: Config, s: State, a: Action): Maybe<Delta> {
    if a.pid !in s.procs then Begin(s, a)
    else
      var pr := s.procs[a.pid];
      if a.Abort? then
        Just(Delta(Same, s.meta, s.fsm, if s.holder == Just(a.pid) then Nothing else s.holder, Nothing))
      else if pr.Vacuuming? then Vacuum(c, s, pr, a)
      else if pr.Cleaning? || pr.Scanning? then Sweep(s, pr, a)
      else Insert(c, s, pr, a)
  }

  function NewProcs(s: State, pid: Pid, d: Delta): map<Pid, Proc> {
    map p | p in s.procs.Keys + {pid} && (p != pid || d.proc.Just?) ::
      if p == pid then d.proc.value else Observe(s.procs[p], s.pages, d.effect)
  }

  function Update(s: State, pid: Pid, d: Delta): State {
    State(NewPages(s.pages, d.effect), d.meta, d.fsm, d.holder, NewProcs(s, pid, d),
          s.inserted + In(d.effect), s.removed + Out(s.pages, d.effect))
  }

  function Next(c: Config, s: State, a: Action): State {
    match Act(c, s, a)
    case Nothing => s
    case Just(d) => Update(s, a.pid, d)
  }

  function Run(c: Config, s: State, acts: seq<Action>): State
    decreases |acts|
  {
    if acts == [] then s else Run(c, Next(c, s, acts[0]), acts[1..])
  }

  // ---------------------------------------------------------------------
  // The invariant
  // ---------------------------------------------------------------------

  /** Everything stored. */
  function Stored(pages: seq<Page>): multiset<BloomTuple> {
    if pages == [] then multiset{} else Stored(pages[..|pages| - 1]) + multiset(Items(pages[|pages| - 1]))
  }

  predicate PageOk(c: Config, p: Page) {
    p.Data? ==> |p.items| <= c.cap && (p.deleted ==> p.items == [])
  }

  predicate PagesOk(c: Config, pages: seq<Page>) {
    && |pages| > 0 && pages[0].MetaPage?
    && (forall b :: 0 < b < |pages| ==> !pages[b].MetaPage?)
    && (forall b :: 0 <= b < |pages| ==> PageOk(c, pages[b]))
  }

  /** An initialised data page. */
  predicate Ready(pages: seq<Page>, b: nat) { 0 < b < |pages| && pages[b].Data? }

  predicate AllReady(pages: seq<Page>, bs: seq<nat>) {
    forall i :: 0 <= i < |bs| ==> Ready(pages, bs[i])
  }

  predicate MetaOk(c: Config, pages: seq<Page>, m: Meta) {
    m.nStart <= |m.notFull| <= c.slots && AllReady(pages, m.notFull)
  }

  predicate HoldsMeta(pr: Proc) { pr.Walking? || pr.Popped? || pr.Extended? }

  predicate HasHit(inserted: multiset<BloomTuple>, tid: TID, q: Sign) {
    exists t :: t in inserted && t.tid == tid && Matches(t.sign, q)
  }

  /** A tuple stored when the scan began is still to come, found, or gone. */
  predicate ScanKeeps(pages: seq<Page>, pr: Proc, b: nat, t: BloomTuple)
    requires pr.Scanning? && |pr.snapshot| <= |pages|
  {
    0 < b < |pr.snapshot| && t in Items(pr.snapshot[b]) && t !in pr.gone ==>
      if b < pr.blk then (Matches(t.sign, pr.q) ==> t.tid in pr.result) else t in Items(pages[b])
  }

  ghost predicate ScanOk(s: State, pr: Proc)
    requires pr.Scanning?
  {
    && |pr.snapshot| <= |s.pages| && 0 < pr.blk <= |pr.snapshot|
    && (forall b, t :: ScanKeeps(s.pages, pr, b, t))
    && (forall tid :: tid in pr.result ==> HasHit(s.inserted, tid, pr.q))
    && (forall t :: t in pr.gone ==> t in s.removed)
  }

  /** A tuple to be removed is left only on pages still to come, unless it was put after the vacuum began. */
  predicate VacuumKeeps(pages: seq<Page>, pr: Proc, b: nat, t: BloomTuple)
    requires pr.Vacuuming?
  {
    0 < b < |pages| && (b < pr.blk || pr.npages <= b) && t in Items(pages[b]) && t.tid in pr.dead ==> t in pr.since
  }

  ghost predicate VacuumOk(c: Config, s: State, pr: Proc)
    requires pr.Vacuuming?
  {
    && 0 < pr.blk <= pr.npages <= |s.pages| && |pr.found| <= c.slots && AllReady(s.pages, pr.found)
    && (forall b, t :: VacuumKeeps(s.pages, pr, b, t))
  }

  ghost predicate ProcOk(c: Config, s: State, pid: Pid, pr: Proc) {
    && (HoldsMeta(pr) ==> s.holder == Just(pid))
    && match pr
       case TryFirst(_, blk) => Ready(s.pages, blk)
       case WantMeta(_, _) => true
       case Walking(_, _) => true
       case Popped(_, _, blk) => 0 < blk < |s.pages|
       case Extended(_, blk) => 0 < blk < |s.pages| && s.pages[blk].New?
       case Vacuuming(_, _, _, _, _) => VacuumOk(c, s, pr)
       case Cleaning(blk, npages) => 0 < blk <= npages <= |s.pages|
       case Scanning(_, _, _, _, _) => ScanOk(s, pr)
  }

  ghost predicate Inv(c: Config, s: State) {
    && c.cap > 0 && c.slots > 0
    && PagesOk(c, s.pages)
    && MetaOk(c, s.pages, s.meta)
    && (forall b :: b in s.fsm ==> 0 < b < |s.pages|)
    && (forall p :: p in s.procs ==> ProcOk(c, s, p, s.procs[p]))
    && Stored(s.pages) + s.removed == s.inserted
  }

  // ---------------------------------------------------------------------
  // Pages
  // ---------------------------------------------------------------------

  lemma NewPagesOk(c: Config, pages: seq<Page>, e: Effect)
    requires PagesOk(c, pages) && EffectOk(c, pages, e)
    ensures PagesOk(c, NewPages(pages, e)) && |pages| <= |NewPages(pages, e)|
    ensures forall b :: Ready(pages, b) ==> Ready(NewPages(pages, e), b)
  {
    if e.Purge? {
      var items := Items(pages[e.at]);
      SurvivorsShorter(items, e.dead);
    }
  }

  lemma {:induction false} StoredAppend(pages: seq<Page>, p: Page)
    ensures Stored(pages + [p]) == Stored(pages) + multiset(Items(p))
  {
    assert (pages + [p])[..|pages|] == pages;
  }

  lemma {:induction false} StoredReplace(pages: seq<Page>, b: nat, p: Page)
    requires b < |pages|
    ensures Stored(pages[b := p]) + multiset(Items(pages[b])) == Stored(pages) + multiset(Items(p))
    decreases |pages|
  {
    var n := |pages| - 1;
    if b < n {
      StoredReplace(pages[..n], b, p);
      assert pages[b := p][..n] == pages[..n][b := p];
      Swap(Stored(pages[..n][b := p]), multiset(Items(pages[b])), Stored(pages[..n]), multiset(Items(p)),
           multiset(Items(pages[n])));
    } else {
      assert pages[b := p][..n] == pages[..n];
    }
  }

  lemma Swap(a: multiset<BloomTuple>, b: multiset<BloomTuple>, x: multiset<BloomTuple>, y: multiset<BloomTuple>,
             z: multiset<BloomTuple>)
    requires a + b == x + y
    ensures (a + z) + b == (x + z) + y
  {
    forall t ensures ((a + z) + b)[t] == ((x + z) + y)[t] { assert (a + b)[t] == (x + y)[t]; }
  }

  lemma {:induction false} StoredHas(pages: seq<Page>, b: nat, t: BloomTuple)
    requires b < |pages| && t in Items(pages[b])
    ensures t in Stored(pages)
    decreases |pages|
  {
    if b < |pages| - 1 { StoredHas(pages[..|pages| - 1], b, t); }
  }

  lemma {:induction false} StoredSomewhere(pages: seq<Page>, t: BloomTuple) returns (b: nat)
    requires t in Stored(pages)
    ensures b < |pages| && t in Items(pages[b])
    decreases |pages|
  {
    var n := |pages| - 1;
    if t in Items(pages[n]) { b := n; } else { b := StoredSomewhere(pages[..n], t); }
  }

  lemma SurvivorsSub(items: seq<BloomTuple>, dead: set<TID>)
    ensures multiset(Survivors(items, dead)) <= multiset(items)
  {
    forall t ensures multiset(Survivors(items, dead))[t] <= multiset(items)[t] { SurvivorsCount(items, dead, t); }
  }

  lemma PutConserves(pages: seq<Page>, at: nat, t: BloomTuple)
    requires at < |pages| && Live(pages[at]) == Items(pages[at])
    ensures Stored(NewPages(pages, Put(at, t))) == Stored(pages) + multiset{t}
  {
    var items := Items(pages[at]);
    StoredReplace(pages, at, Data(false, items + [t]));
    Cancel(Stored(NewPages(pages, Put(at, t))), multiset(items), Stored(pages), multiset{t});
  }

  lemma InitConserves(pages: seq<Page>, at: nat, t: BloomTuple)
    requires at < |pages| && Items(pages[at]) == []
    ensures Stored(NewPages(pages, Init(at, t))) == Stored(pages) + multiset{t}
  {
    StoredReplace(pages, at, Data(false, [t]));
  }

  lemma TakenIs(items: seq<BloomTuple>, dead: set<TID>)
    ensures multiset(items) == multiset(Survivors(items, dead)) + Taken(items, dead)
  {
    SurvivorsSub(items, dead);
  }

  lemma PurgeConserves(pages: seq<Page>, at: nat, dead: set<TID>)
    requires at < |pages|
    ensures Stored(NewPages(pages, Purge(at, dead))) + Taken(Items(pages[at]), dead) == Stored(pages)
  {
    var items := Items(pages[at]);
    var kept := multiset(Survivors(items, dead));
    StoredReplace(pages, at, PurgedPage(items, dead));
    TakenIs(items, dead);
    Cancel2(Stored(NewPages(pages, Purge(at, dead))), kept, Taken(items, dead), Stored(pages));
  }

  /** Conservation for one effect. */
  lemma EffectConserves(c: Config, pages: seq<Page>, e: Effect)
    requires PagesOk(c, pages) && EffectOk(c, pages, e)
    ensures Stored(NewPages(pages, e)) + Out(pages, e) == Stored(pages) + In(e)
  {
    match e
    case Same =>
    case Grow => StoredAppend(pages, New);
    case Put(at, t) =>
      PutConserves(pages, at, t);
    case Init(at, t) => InitConserves(pages, at, t);
    case Purge(at, dead) => PurgeConserves(pages, at, dead);
  }

  lemma Cancel(a: multiset<BloomTuple>, b: multiset<BloomTuple>, x: multiset<BloomTuple>, y: multiset<BloomTuple>)
    requires a + b == x + (b + y)
    ensures a == x + y
  {
    forall t ensures a[t] == (x + y)[t] { assert (a + b)[t] == (x + (b + y))[t]; }
  }

  lemma Cancel2(a: multiset<BloomTuple>, k: multiset<BloomTuple>, o: multiset<BloomTuple>, x: multiset<BloomTuple>)
    requires a + (k + o) == x + k
    ensures a + o == x
  {
    forall t ensures (a + o)[t] == x[t] { assert (a + (k + o))[t] == (x + k)[t]; }
  }

  lemma SurvivesIff(items: seq<BloomTuple>, dead: set<TID>, t: BloomTuple)
    ensures t in Survivors(items, dead) <==> t in items && t.tid !in dead
    ensures t in Taken(items, dead) <==> t in items && t.tid in dead
  {
    SurvivorsCount(items, dead, t);
    assert t in Survivors(items, dead) <==> t in multiset(Survivors(items, dead));
    assert t in items <==> t in multiset(items);
  }

  /** What is left on a page after an effect, and what was there before. */
  lemma ItemsAfter(c: Config, pages: seq<Page>, e: Effect, b: nat, t: BloomTuple)
    requires PagesOk(c, pages) && EffectOk(c, pages, e) && b < |pages|
    ensures t in Items(pages[b]) ==> t in Items(NewPages(pages, e)[b]) || t in Out(pages, e)
    ensures t in Items(NewPages(pages, e)[b]) ==> t in Items(pages[b]) || t in In(e)
    ensures e.Purge? && e.at == b && t in Items(NewPages(pages, e)[b]) ==> t.tid !in e.dead
  {
    if e.Purge? && e.at == b {
      SurvivesIff(Items(pages[b]), e.dead, t);
    }
  }

  // ---------------------------------------------------------------------
  // Processes that do not act
  // ---------------------------------------------------------------------

  lemma ScanStays(c: Config, s: State, d: Delta, pid: Pid, pr: Proc)
    requires pr.Scanning? && ScanOk(s, pr) && EffectOk(c, s.pages, d.effect) && PagesOk(c, s.pages)
    ensures ScanOk(Update(s, pid, d), Observe(pr, s.pages, d.effect))
  {
    var s', pr' := Update(s, pid, d), Observe(pr, s.pages, d.effect);
    NewPagesOk(c, s.pages, d.effect);
    forall b: nat, t ensures ScanKeeps(s'.pages, pr', b, t) {
      assert ScanKeeps(s.pages, pr, b, t);
      if b < |s.pages| { ItemsAfter(c, s.pages, d.effect, b, t); }
    }
    forall tid | tid in pr'.result ensures HasHit(s'.inserted, tid, pr'.q) {
      assert HasHit(s.inserted, tid, pr.q);
    }
  }

  lemma VacuumStays(c: Config, s: State, d: Delta, pid: Pid, pr: Proc)
    requires pr.Vacuuming? && VacuumOk(c, s, pr) && EffectOk(c, s.pages, d.effect) && PagesOk(c, s.pages)
    ensures VacuumOk(c, Update(s, pid, d), Observe(pr, s.pages, d.effect))
  {
    var s', pr' := Update(s, pid, d), Observe(pr, s.pages, d.effect);
    NewPagesOk(c, s.pages, d.effect);
    forall b: nat, t ensures VacuumKeeps(s'.pages, pr', b, t) {
      assert VacuumKeeps(s.pages, pr, b, t);
      if b < |s.pages| { ItemsAfter(c, s.pages, d.effect, b, t); }
    }
  }

  /**
   What an action must leave behind.  Only the process that holds the metapage lock
   writes to a page that was never initialised, or changes who holds the lock while
   it is held.
   */
  ghost predicate DeltaOk(c: Config, s: State, pid: Pid, d: Delta) {
    && EffectOk(c, s.pages, d.effect)
    && MetaOk(c, NewPages(s.pages, d.effect), d.meta)
    && (forall b :: b in d.fsm ==> 0 < b < |s.pages|)
    && (s.holder != Nothing && s.holder != Just(pid) ==> d.holder == s.holder)
    && ((d.effect.Put? || d.effect.Init?) && s.pages[d.effect.at].New? ==> s.holder == Just(pid))
    && (d.proc.Just? ==> ProcOk(c, Update(s, pid, d), pid, d.proc.value))
  }

  lemma OtherStays(c: Config, s: State, pid: Pid, d: Delta, p: Pid)
    requires Inv(c, s) && DeltaOk(c, s, pid, d) && p in s.procs && p != pid
    ensures ProcOk(c, Update(s, pid, d), p, Observe(s.procs[p], s.pages, d.effect))
  {
    var pr := s.procs[p];
    assert ProcOk(c, s, p, pr);
    NewPagesOk(c, s.pages, d.effect);
    if pr.Vacuuming? {
      VacuumStays(c, s, d, pid, pr);
    } else if pr.Scanning? {
      ScanStays(c, s, d, pid, pr);
    }
  }

  lemma UpdateKeepsInv(c: Config, s: State, pid: Pid, d: Delta)
    requires Inv(c, s) && DeltaOk(c, s, pid, d)
    ensures Inv(c, Update(s, pid, d))
  {
    var s' := Update(s, pid, d);
    NewPagesOk(c, s.pages, d.effect);
    forall p | p in s'.procs ensures ProcOk(c, s', p, s'.procs[p]) {
      if p != pid { OtherStays(c, s, pid, d, p); }
    }
    EffectConserves(c, s.pages, d.effect);
    Balance(Stored(s'.pages), s.removed, Out(s.pages, d.effect), Stored(s.pages), In(d.effect), s.inserted);
  }

  lemma Balance(a: multiset<BloomTuple>, r: multiset<BloomTuple>, o: multiset<BloomTuple>, x: multiset<BloomTuple>,
                i: multiset<BloomTuple>, n: multiset<BloomTuple>)
    requires a + o == x + i && x + r == n
    ensures a + (r + o) == n + i
  {
    forall t ensures (a + (r + o))[t] == (n + i)[t] {
      assert (a + o)[t] == (x + i)[t];
      assert (x + r)[t] == n[t];
    }
  }

  // ---------------------------------------------------------------------
  // Processes that act
  // ---------------------------------------------------------------------

  lemma ReadyStays(c: Config, pages: seq<Page>, e: Effect, bs: seq<nat>)
    requires PagesOk(c, pages) && EffectOk(c, pages, e) && AllReady(pages, bs)
    ensures AllReady(NewPages(pages, e), bs)
  {
    NewPagesOk(c, pages, e);
  }

  lemma InsertOk(c: Config, s: State, a: Action)
    requires Inv(c, s) && a.pid in s.procs
    requires var pr := s.procs[a.pid]; pr.TryFirst? || pr.WantMeta? || pr.Walking? || pr.Popped? || pr.Extended?
    ensures var d := Insert(c, s, s.procs[a.pid], a); d.Just? ==> DeltaOk(c, s, a.pid, d.value)
  {
    var pr := s.procs[a.pid];
    assert ProcOk(c, s, a.pid, pr);
    var d := Insert(c, s, pr, a);
    if d.Just? { ReadyStays(c, s.pages, d.value.effect, s.meta.notFull); }
  }

  /** Once a page is purged, or passed over as unused, nothing on it is left to remove. */
  lemma PassedPageIsClean(c: Config, s: State, pr: Proc, pr': Proc, e: Effect)
    requires Inv(c, s) && pr.Vacuuming? && pr'.Vacuuming? && pr'.dead == pr.dead && pr'.since == pr.since
    requires pr'.npages == pr.npages && pr'.blk == pr.blk + 1 <= pr.npages && VacuumOk(c, s, pr)
    requires EffectOk(c, s.pages, e) && (e == Purge(pr.blk, pr.dead) || (e == Same && Items(s.pages[pr.blk]) == []))
    ensures forall b, t :: VacuumKeeps(NewPages(s.pages, e), pr', b, t)
  {
    forall b: nat, t ensures VacuumKeeps(NewPages(s.pages, e), pr', b, t) {
      assert VacuumKeeps(s.pages, pr, b, t);
      if b < |s.pages| { ItemsAfter(c, s.pages, e, b, t); }
    }
  }

  /** The vacuum's state after one page. */
  lemma VacuumStepOk(c: Config, s: State, pid: Pid, pr: Proc, pr': Proc, e: Effect)
    requires Inv(c, s) && pr.Vacuuming? && VacuumOk(c, s, pr) && pr.blk < pr.npages
    requires EffectOk(c, s.pages, e) && (e == Purge(pr.blk, pr.dead) || (e == Same && Items(s.pages[pr.blk]) == []))
    requires pr'.Vacuuming? && pr' == Vacuuming(pr.dead, pr.blk + 1, pr.npages, pr'.found, pr.since)
    requires pr'.found == pr.found || (pr'.found == pr.found + [pr.blk] && |pr.found| < c.slots && s.pages[pr.blk].Data?)
    ensures VacuumOk(c, Update(s, pid, Delta(e, s.meta, s.fsm, s.holder, Just(pr'))), pr')
  {
    NewPagesOk(c, s.pages, e);
    ReadyStays(c, s.pages, e, pr.found);
    PassedPageIsClean(c, s, pr, pr', e);
  }

  /** The step over one page, as an outcome. */
  lemma VacuumTurnOk(c: Config, s: State, pid: Pid, pr: Proc, d: Delta)
    requires Inv(c, s) && pr.Vacuuming? && VacuumOk(c, s, pr) && pr.blk < pr.npages && d.proc.Just?
    requires d == Delta(d.effect, s.meta, s.fsm, s.holder, d.proc) && EffectOk(c, s.pages, d.effect)
    requires d.effect == Purge(pr.blk, pr.dead) || (d.effect == Same && Items(s.pages[pr.blk]) == [])
    requires var pr' := d.proc.value;
      && pr'.Vacuuming? && pr' == Vacuuming(pr.dead, pr.blk + 1, pr.npages, pr'.found, pr.since)
      && (pr'.found == pr.found || (pr'.found == pr.found + [pr.blk] && |pr.found| < c.slots && s.pages[pr.blk].Data?))
    ensures DeltaOk(c, s, pid, d)
  {
    VacuumStepOk(c, s, pid, pr, d.proc.value, d.effect);
    ReadyStays(c, s.pages, d.effect, s.meta.notFull);
  }

  lemma VacuumPageOk(c: Config, s: State, a: Action)
    requires Inv(c, s) && a.pid in s.procs && s.procs[a.pid].Vacuuming?
    ensures var d := Vacuum(c, s, s.procs[a.pid], a); d.Just? ==> DeltaOk(c, s, a.pid, d.value)
  {
    var pr := s.procs[a.pid];
    assert ProcOk(c, s, a.pid, pr);
    var d := Vacuum(c, s, pr, a);
    if d.Just? && d.value.proc.Just? { VacuumTurnOk(c, s, a.pid, pr, d.value); }
  }

  lemma SweepOk(c: Config, s: State, a: Action)
    requires Inv(c, s) && a.pid in s.procs && (s.procs[a.pid].Cleaning? || s.procs[a.pid].Scanning?)
    ensures var d := Sweep(s, s.procs[a.pid], a); d.Just? ==> DeltaOk(c, s, a.pid, d.value)
  {
    var pr := s.procs[a.pid];
    assert ProcOk(c, s, a.pid, pr);
    var d := Sweep(s, pr, a);
    if d.Just? && d.value.proc.Just? && pr.Scanning? {
      ScanPageOk(c, s, a.pid, pr, d.value.proc.value);
    }
  }

  lemma ScanPageOk(c: Config, s: State, pid: Pid, pr: Proc, pr': Proc)
    requires Inv(c, s) && pr.Scanning? && ScanOk(s, pr) && pr.blk < |pr.snapshot|
    requires pr' == Scanning(pr.q, pr.blk + 1, pr.snapshot, pr.result + Hits(s.pages[pr.blk], pr.q), pr.gone)
    ensures ScanOk(Update(s, pid, Become(s, pr')), pr')
  {
    forall b: nat, t ensures ScanKeeps(s.pages, pr', b, t) {
      assert ScanKeeps(s.pages, pr, b, t);
    }
    forall tid | tid in pr'.result ensures HasHit(s.inserted, tid, pr'.q) {
      if tid in pr.result {
        assert HasHit(s.inserted, tid, pr.q);
      } else {
        var t :| t in Items(s.pages[pr.blk]) && Matches(t.sign, pr.q) && t.tid == tid;
        StoredHas(s.pages, pr.blk, t);
        assert t in s.inserted;
      }
    }
  }

  lemma BeginOk(c: Config, s: State, a: Action)
    requires Inv(c, s) && a.pid !in s.procs
    ensures var d := Begin(s, a); d.Just? ==> DeltaOk(c, s, a.pid, d.value)
  {
  }

  /** Every action keeps the invariant. */
  lemma NextKeepsInv(c: Config, s: State, a: Action)
    requires Inv(c, s)
    ensures Inv(c, Next(c, s, a))
  {
    var d := Act(c, s, a);
    if a.pid !in s.procs {
      BeginOk(c, s, a);
    } else if a.Abort? {
    } else if s.procs[a.pid].Vacuuming? {
      VacuumPageOk(c, s, a);
    } else if s.procs[a.pid].Cleaning? || s.procs[a.pid].Scanning? {
      SweepOk(c, s, a);
    } else {
      InsertOk(c, s, a);
    }
    if d.Just? { UpdateKeepsInv(c, s, a.pid, d.value); }
  }

  lemma {:induction false} RunKeepsInv(c: Config, s: State, acts: seq<Action>)
    requires Inv(c, s)
    ensures Inv(c, Run(c, s, acts))
    decreases |acts|
  {
    if acts != [] {
      NextKeepsInv(c, s, acts[0]);
      RunKeepsInv(c, Next(c, s, acts[0]), acts[1..]);
    }
  }

  // ---------------------------------------------------------------------
  // Whole runs
  // ---------------------------------------------------------------------

  function DataPages(contents: seq<seq<BloomTuple>>): (pages: seq<Page>)
    ensures |pages| == |contents| && forall i :: 0 <= i < |contents| ==> pages[i] == Data(false, contents[i])
  {
    if contents == [] then [] else DataPages(contents[..|contents| - 1]) + [Data(false, contents[|contents| - 1])]
  }

  /** The state after a build over a heap's tuples: a metapage, then pages with these contents. */
  function Built(heap: seq<BloomTuple>, contents: seq<seq<BloomTuple>>): State {
    State([MetaPage] + DataPages(contents), Meta(0, []), {}, Nothing, map[], multiset(heap), multiset{})
  }

  lemma {:induction false} BuiltStores(contents: seq<seq<BloomTuple>>)
    ensures Stored([MetaPage] + DataPages(contents)) == multiset(Flat(contents))
    decreases |contents|
  {
    if contents == [] {
      assert [MetaPage] + DataPages(contents) == [] + [MetaPage];
    } else {
      var rest := contents[..|contents| - 1];
      BuiltStores(rest);
      StoredAppend([MetaPage] + DataPages(rest), Data(false, contents[|contents| - 1]));
      assert [MetaPage] + DataPages(contents) == ([MetaPage] + DataPages(rest)) + [Data(false, contents[|contents| - 1])];
    }
  }

  /** A build whose pages hold the heap's tuples, none over capacity, starts every run off with the invariant. */
  lemma BuiltIsOk(c: Config, heap: seq<BloomTuple>, contents: seq<seq<BloomTuple>>)
    requires c.cap > 0 && c.slots > 0 && Flat(contents) == heap
    requires forall i :: 0 <= i < |contents| ==> |contents[i]| <= c.cap
    ensures Inv(c, Built(heap, contents))
  {
    BuiltStores(contents);
  }

  /** The build itself gives such a state. */
  method BuildIndex(c: Config, heap: seq<BloomTuple>, filler: BloomTuple) returns (s: State)
    requires c.cap > 0 && c.slots > 0
    ensures Inv(c, s) && s.inserted == multiset(heap) == Stored(s.pages) && s.removed == multiset{} && s.procs == map[]
  {
    var contents := Build(heap, c.cap, filler);
    BuiltIsOk(c, heap, contents);
    BuiltStores(contents);
    s := Built(heap, contents);
  }

  /** Nothing is lost or duplicated: what is stored is what was inserted, less what vacuum removed. */
  lemma NothingLost(c: Config, s: State, acts: seq<Action>)
    requires Inv(c, s)
    ensures var s' := Run(c, s, acts); Stored(s'.pages) == s'.inserted - s'.removed
  {
    RunKeepsInv(c, s, acts);
  }

  /** After a vacuum's last page, every dead row still stored was put there after the vacuum began. */
  lemma VacuumIsComplete(c: Config, s: State, acts: seq<Action>, pid: Pid, t: BloomTuple)
    requires Inv(c, s)
    requires var s' := Run(c, s, acts);
      && pid in s'.procs && s'.procs[pid].Vacuuming? && s'.procs[pid].blk == s'.procs[pid].npages
      && t in Stored(s'.pages) && t.tid in s'.procs[pid].dead
    ensures t in Run(c, s, acts).procs[pid].since
  {
    RunKeepsInv(c, s, acts);
    var s' := Run(c, s, acts);
    assert ProcOk(c, s', pid, s'.procs[pid]);
    var b := StoredSomewhere(s'.pages, t);
    assert VacuumKeeps(s'.pages, s'.procs[pid], b, t);
  }

  predicate Inserting(pr: Proc, t: BloomTuple) {
    (pr.TryFirst? || pr.WantMeta? || pr.Walking? || pr.Popped? || pr.Extended?) && pr.t == t
  }

  /** What one step of an insert of `t` may do: store nothing and go on, or store `t` and end. */
  predicate StoresOnce(s: State, s': State, pid: Pid, t: BloomTuple) {
    if pid in s'.procs then Inserting(s'.procs[pid], t) && Stored(s'.pages) == Stored(s.pages)
    else Stored(s'.pages) == Stored(s.pages) + multiset{t}
  }

  lemma InsertDelta(c: Config, s: State, pr: Proc, a: Action, t: BloomTuple)
    requires Inserting(pr, t)
    ensures var d := Insert(c, s, pr, a); d.Just? && d.value.proc.Nothing? ==>
      (d.value.effect.Put? || d.value.effect.Init?) && d.value.effect.t == t
    ensures var d := Insert(c, s, pr, a); d.Just? && d.value.proc.Just? ==>
      (d.value.effect.Same? || d.value.effect.Grow?) && Inserting(d.value.proc.value, t)
  {
  }

  lemma DeltaStoresOnce(c: Config, s: State, pid: Pid, t: BloomTuple, d: Delta)
    requires PagesOk(c, s.pages) && EffectOk(c, s.pages, d.effect)
    requires d.proc.Nothing? ==> (d.effect.Put? || d.effect.Init?) && d.effect.t == t
    requires d.proc.Just? ==> (d.effect.Same? || d.effect.Grow?) && Inserting(d.proc.value, t)
    ensures StoresOnce(s, Update(s, pid, d), pid, t)
  {
    EffectConserves(c, s.pages, d.effect);
  }

  /** An insert's own steps keep its tuple unstored until the step that ends it, which stores it once. */
  lemma InsertStoresOnce(c: Config, s: State, a: Action, t: BloomTuple)
    requires Inv(c, s) && a.pid in s.procs && Inserting(s.procs[a.pid], t) && !a.Abort?
    ensures StoresOnce(s, Next(c, s, a), a.pid, t)
  {
    var pr := s.procs[a.pid];
    InsertDelta(c, s, pr, a, t);
    InsertOk(c, s, a);
    match Act(c, s, a)
    case Nothing =>
    case Just(d) => DeltaStoresOnce(c, s, a.pid, t, d);
  }

  lemma OnlyVacuumPurges(c: Config, s: State, a: Action)
    ensures var d := Act(c, s, a); d.Just? && d.value.effect.Purge? ==>
      a.pid in s.procs && s.procs[a.pid].Vacuuming? && d.value.effect.dead == s.procs[a.pid].dead
  {
  }

  /** Only a vacuum removes tuples, and only those of rows it was told are dead. */
  lemma OnlyDeadRemoved(c: Config, s: State, a: Action, t: BloomTuple)
    requires Next(c, s, a).removed[t] > s.removed[t]
    ensures a.pid in s.procs && s.procs[a.pid].Vacuuming? && t.tid in s.procs[a.pid].dead
  {
    OnlyVacuumPurges(c, s, a);
    var d := Act(c, s, a);
    if d.Just? { OutIsDead(s.pages, d.value.effect, t); }
  }

  lemma OutIsDead(pages: seq<Page>, e: Effect, t: BloomTuple)
    ensures t in Out(pages, e) ==> e.Purge? && t.tid in e.dead
  {
    if e.Purge? && e.at < |pages| { SurvivorsCount(Items(pages[e.at]), e.dead, t); }
  }

  // ---------------------------------------------------------------------
  // Rows no vacuum is told of
  // ---------------------------------------------------------------------

  /** No running vacuum was told that the row is dead. */
  predicate Spared(s: State, tid: TID) {
    forall p :: p in s.procs && s.procs[p].Vacuuming? ==> tid !in s.procs[p].dead
  }

  /** No vacuum that begins during these actions is told so. */
  predicate Unreported(acts: seq<Action>, tid: TID) {
    forall i :: 0 <= i < |acts| && acts[i].BeginVacuum? ==> tid !in acts[i].tids
  }

  function Copies(pages: seq<Page>, b: nat, t: BloomTuple): nat {
    if b < |pages| then multiset(Items(pages[b]))[t] else 0
  }

  /** One effect on one page: a tuple outside the purged rows keeps its copies. */
  lemma CopiesKept(c: Config, pages: seq<Page>, e: Effect, b: nat, t: BloomTuple)
    requires PagesOk(c, pages) && EffectOk(c, pages, e) && (e.Purge? ==> t.tid !in e.dead)
    ensures Copies(NewPages(pages, e), b, t) >= Copies(pages, b, t) && t !in Out(pages, e)
  {
    if e.Purge? { SparedSurvives(Items(pages[e.at]), e.dead, t); }
  }

  lemma SparedSurvives(items: seq<BloomTuple>, dead: set<TID>, t: BloomTuple)
    ensures t.tid !in dead ==>
      multiset(Survivors(items, dead))[t] == multiset(items)[t] && t !in Taken(items, dead)
  {
    SurvivorsCount(items, dead, t);
  }

  lemma SparedStep(c: Config, s: State, a: Action, t: BloomTuple, b: nat)
    requires Inv(c, s) && Spared(s, t.tid) && (a.BeginVacuum? ==> t.tid !in a.tids)
    ensures var s' := Next(c, s, a);
      && Spared(s', t.tid) && s'.removed[t] == s.removed[t] && s.inserted[t] <= s'.inserted[t]
      && Copies(s'.pages, b, t) >= Copies(s.pages, b, t)
  {
    OnlyVacuumPurges(c, s, a);
    var d := Act(c, s, a);
    if d.Just? {
      ActEffectOk(c, s, a);
      CopiesKept(c, s.pages, d.value.effect, b, t);
      SparedNext(c, s, a, t.tid);
    }
  }

  /** A process comes to vacuum by beginning to, and keeps to what it was told. */
  lemma ToldAtBegin(c: Config, s: State, a: Action)
    ensures var d := Act(c, s, a); d.Just? && d.value.proc.Just? && d.value.proc.value.Vacuuming? ==>
      if a.pid in s.procs then s.procs[a.pid].Vacuuming? && d.value.proc.value.dead == s.procs[a.pid].dead
      else a.BeginVacuum? && d.value.proc.value.dead == a.tids
  {
  }

  lemma SparedNext(c: Config, s: State, a: Action, tid: TID)
    requires Spared(s, tid) && (a.BeginVacuum? ==> tid !in a.tids)
    ensures Spared(Next(c, s, a), tid)
  {
    ToldAtBegin(c, s, a);
    match Act(c, s, a)
    case Nothing =>
    case Just(d) => SparedUpdate(s, a.pid, d, tid);
  }

  lemma SparedUpdate(s: State, pid: Pid, d: Delta, tid: TID)
    requires Spared(s, tid) && (d.proc.Just? && d.proc.value.Vacuuming? ==> tid !in d.proc.value.dead)
    ensures Spared(Update(s, pid, d), tid)
  {
  }

  /** What NextKeepsInv finds out about the action on its way. */
  lemma ActEffectOk(c: Config, s: State, a: Action)
    requires Inv(c, s)
    ensures var d := Act(c, s, a); d.Just? ==> EffectOk(c, s.pages, d.value.effect)
  {
    if a.pid !in s.procs {
      BeginOk(c, s, a);
    } else if a.Abort? {
    } else if s.procs[a.pid].Vacuuming? {
      VacuumPageOk(c, s, a);
    } else if s.procs[a.pid].Cleaning? || s.procs[a.pid].Scanning? {
      SweepOk(c, s, a);
    } else {
      InsertOk(c, s, a);
    }
  }

  lemma {:induction false} SparedRun(c: Config, s: State, acts: seq<Action>, t: BloomTuple, b: nat)
    requires Inv(c, s) && Spared(s, t.tid) && Unreported(acts, t.tid)
    ensures var s' := Run(c, s, acts);
      && Spared(s', t.tid) && s'.removed[t] == s.removed[t] && s.inserted[t] <= s'.inserted[t]
      && Copies(s'.pages, b, t) >= Copies(s.pages, b, t)
    decreases |acts|
  {
    if acts != [] {
      assert acts[0].BeginVacuum? ==> t.tid !in acts[0].tids;
      SparedStep(c, s, acts[0], t, b);
      NextKeepsInv(c, s, acts[0]);
      SparedRun(c, Next(c, s, acts[0]), acts[1..], t, b);
    }
  }

  /**
   Over every interleaving: a tuple whose row no running or later vacuum is told of is
   never taken out, the index does not come to hold fewer copies of it, and neither does
   any page.
   */
  lemma UnreportedStays(c: Config, s: State, acts: seq<Action>, t: BloomTuple, b: nat)
    requires Inv(c, s) && Spared(s, t.tid) && Unreported(acts, t.tid)
    ensures var s' := Run(c, s, acts);
      && s'.removed[t] == s.removed[t]
      && Stored(s'.pages)[t] >= Stored(s.pages)[t] && Copies(s'.pages, b, t) >= Copies(s.pages, b, t)
  {
    SparedRun(c, s, acts, t, b);
    RunKeepsInv(c, s, acts);
    StoredBalance(c, s, t);
    StoredBalance(c, Run(c, s, acts), t);
  }

  lemma StoredBalance(c: Config, s: State, t: BloomTuple)
    requires Inv(c, s)
    ensures Stored(s.pages)[t] + s.removed[t] == s.inserted[t]
  {
    assert (Stored(s.pages) + s.removed)[t] == s.inserted[t];
  }

  /** Block b holds the tuple once and no other block holds it. */
  ghost predicate OnlyOn(pages: seq<Page>, b: nat, t: BloomTuple) {
    Copies(pages, b, t) == 1 && forall k: nat :: k != b ==> Copies(pages, k, t) == 0
  }

  function Counts(pages: seq<Page>, t: BloomTuple): (cs: seq<nat>)
    ensures |cs| == |pages| && forall b :: 0 <= b < |pages| ==> cs[b] == Copies(pages, b, t)
  {
    seq(|pages|, b requires 0 <= b < |pages| => Copies(pages, b, t))
  }

  function Sum(cs: seq<nat>, n: nat): nat
    requires n <= |cs|
  {
    if n == 0 then 0 else Sum(cs, n - 1) + cs[n - 1]
  }

  lemma {:induction false} SumPrefix(a: seq<nat>, b: seq<nat>, n: nat)
    requires n <= |a| && n <= |b| && forall i :: 0 <= i < n ==> a[i] == b[i]
    ensures Sum(a, n) == Sum(b, n)
  {
    if n > 0 { SumPrefix(a, b, n - 1); }
  }

  lemma StoredLast(pages: seq<Page>, t: BloomTuple)
    requires pages != []
    ensures Stored(pages)[t] == Stored(pages[..|pages| - 1])[t] + Copies(pages, |pages| - 1, t)
  {
  }

  lemma {:induction false} StoredIsSum(pages: seq<Page>, t: BloomTuple)
    ensures Stored(pages)[t] == Sum(Counts(pages, t), |pages|)
    decreases |pages|
  {
    if pages != [] {
      var n := |pages| - 1;
      StoredIsSum(pages[..n], t);
      StoredLast(pages, t);
      CountsPrefix(pages, t, n);
    }
  }

  lemma CountsPrefix(pages: seq<Page>, t: BloomTuple, n: nat)
    requires n <= |pages|
    ensures Sum(Counts(pages[..n], t), n) == Sum(Counts(pages, t), n)
  {
    forall i | 0 <= i < n ensures Counts(pages[..n], t)[i] == Counts(pages, t)[i] { assert pages[..n][i] == pages[i]; }
    SumPrefix(Counts(pages[..n], t), Counts(pages, t), n);
  }

  /** Two different terms do not exceed the sum. */
  lemma {:induction false} SumBound(cs: seq<nat>, n: nat, b: nat, k: nat)
    requires b < n <= |cs|
    ensures cs[b] + (if k < n && k != b then cs[k] else 0) <= Sum(cs, n)
  {
    if b < n - 1 {
      SumBound(cs, n - 1, b, k);
    } else if k < n - 1 {
      SumBound(cs, n - 1, k, k);
    }
  }

  lemma StoredOnce(pages: seq<Page>, b: nat, t: BloomTuple)
    requires Stored(pages)[t] == 1 && Copies(pages, b, t) > 0
    ensures OnlyOn(pages, b, t)
  {
    var cs := Counts(pages, t);
    StoredIsSum(pages, t);
    SumBound(cs, |cs|, b, b);
    forall k: nat | k != b ensures Copies(pages, k, t) == 0 { SumBound(cs, |cs|, b, k); }
  }

  /**
   A tuple inserted once, on page b, whose row no vacuum is told of: in every later state
   that page holds it exactly once and no other page holds it.
   */
  lemma UnreportedOnOnePage(c: Config, s: State, acts: seq<Action>, t: BloomTuple, b: nat)
    requires Inv(c, s) && Spared(s, t.tid) && Unreported(acts, t.tid) && Copies(s.pages, b, t) > 0
    requires Run(c, s, acts).inserted[t] == s.removed[t] + 1
    ensures OnlyOn(Run(c, s, acts).pages, b, t)
  {
    UnreportedStays(c, s, acts, t, b);
    RunKeepsInv(c, s, acts);
    StoredBalance(c, Run(c, s, acts), t);
    StoredOnce(Run(c, s, acts).pages, b, t);
  }

  /** A scan returns only rows that were inserted with a matching signature. */
  lemma ScanReturnsOnlyHits(c: Config, s: State, acts: seq<Action>, pid: Pid, tid: TID)
    requires Inv(c, s)
    requires var s' := Run(c, s, acts); pid in s'.procs && s'.procs[pid].Scanning? && tid in s'.procs[pid].result
    ensures var s' := Run(c, s, acts);
      exists t :: t in s'.inserted && t.tid == tid && Matches(t.sign, s'.procs[pid].q)
  {
    RunKeepsInv(c, s, acts);
    var s' := Run(c, s, acts);
    assert ProcOk(c, s', pid, s'.procs[pid]);
    assert HasHit(s'.inserted, tid, s'.procs[pid].q);
  }

  /** The process keeps scanning: it takes no action but reading pages. */
  predicate OnlyScans(acts: seq<Action>, pid: Pid) {
    forall i :: 0 <= i < |acts| && acts[i].pid == pid ==> acts[i].ScanPage?
  }

  predicate SameScan(s: State, pid: Pid, q: Sign, snapshot: seq<Page>) {
    pid in s.procs && s.procs[pid].Scanning? && s.procs[pid].q == q && s.procs[pid].snapshot == snapshot
  }

  lemma ScanPersists1(c: Config, s: State, a: Action, pid: Pid, q: Sign, snapshot: seq<Page>)
    requires SameScan(s, pid, q, snapshot) && (a.pid == pid ==> a.ScanPage?)
    ensures SameScan(Next(c, s, a), pid, q, snapshot) && s.removed <= Next(c, s, a).removed
  {
  }

  lemma {:induction false} ScanPersists(c: Config, s: State, acts: seq<Action>, pid: Pid, q: Sign, snapshot: seq<Page>)
    requires SameScan(s, pid, q, snapshot) && OnlyScans(acts, pid)
    ensures SameScan(Run(c, s, acts), pid, q, snapshot) && s.removed <= Run(c, s, acts).removed
    decreases |acts|
  {
    if acts != [] {
      ScanPersists1(c, s, acts[0], pid, q, snapshot);
      ScanPersists(c, Next(c, s, acts[0]), acts[1..], pid, q, snapshot);
    }
  }

  /**
   A tuple stored when the scan began, and which no vacuum took out while it ran, is in
   the scan's result when its signature matches, whatever the other processes do in
   between.
   */
  lemma ScanFindsEverything(c: Config, s: State, pid: Pid, q: Sign, acts: seq<Action>, t: BloomTuple)
    requires Inv(c, s) && pid !in s.procs && OnlyScans(acts, pid)
    requires t in Stored(s.pages) && Matches(t.sign, q)
    requires var s' := Run(c, Next(c, s, BeginScan(pid, q)), acts);
      pid in s'.procs && s'.procs[pid].Scanning? ==> t !in s'.procs[pid].gone && s'.procs[pid].blk == |s'.procs[pid].snapshot|
    ensures var s' := Run(c, Next(c, s, BeginScan(pid, q)), acts);
      pid in s'.procs && s'.procs[pid].Scanning? && t.tid in s'.procs[pid].result
  {
    var s1 := Next(c, s, BeginScan(pid, q));
    NextKeepsInv(c, s, BeginScan(pid, q));
    RunKeepsInv(c, s1, acts);
    ScanPersists(c, s1, acts, pid, q, s.pages);
    FoundInTheEnd(c, Run(c, s1, acts), pid, t);
  }

  /** A finished scan has found every matching tuple of its snapshot that was not taken out since. */
  lemma FoundInTheEnd(c: Config, s: State, pid: Pid, t: BloomTuple)
    requires Inv(c, s) && pid in s.procs && s.procs[pid].Scanning? && s.procs[pid].blk == |s.procs[pid].snapshot|
    requires t in Stored(s.procs[pid].snapshot) && t !in s.procs[pid].gone && Matches(t.sign, s.procs[pid].q)
    requires s.procs[pid].snapshot != [] && s.procs[pid].snapshot[0].MetaPage?
    ensures t.tid in s.procs[pid].result
  {
    var pr := s.procs[pid];
    assert ProcOk(c, s, pid, pr);
    var b := StoredSomewhere(pr.snapshot, t);
    assert ScanKeeps(s.pages, pr, b, t);
  }

  predicate NotGone(s: State, pid: Pid, t: BloomTuple) {
    pid in s.procs && s.procs[pid].Scanning? && t !in s.procs[pid].gone
  }

  lemma NotGoneUpdate(s: State, actor: Pid, d: Delta, pid: Pid, t: BloomTuple)
    requires NotGone(s, pid, t) && t !in Out(s.pages, d.effect)
    requires actor == pid ==> d.proc.Just? && d.proc.value.Scanning? && d.proc.value.gone == s.procs[pid].gone
    ensures NotGone(Update(s, actor, d), pid, t)
  {
  }

  lemma ScanPageKeepsGone(c: Config, s: State, a: Action)
    requires a.pid in s.procs && s.procs[a.pid].Scanning? && a.ScanPage?
    ensures var d := Act(c, s, a); d.Just? ==>
      d.value.proc.Just? && d.value.proc.value.Scanning? && d.value.proc.value.gone == s.procs[a.pid].gone
  {
  }

  lemma NotGoneStep(c: Config, s: State, a: Action, pid: Pid, t: BloomTuple)
    requires Spared(s, t.tid) && NotGone(s, pid, t) && (a.pid == pid ==> a.ScanPage?)
    ensures NotGone(Next(c, s, a), pid, t)
  {
    OnlyVacuumPurges(c, s, a);
    if a.pid == pid { ScanPageKeepsGone(c, s, a); }
    match Act(c, s, a)
    case Nothing =>
    case Just(d) =>
      OutIsDead(s.pages, d.effect, t);
      NotGoneUpdate(s, a.pid, d, pid, t);
  }

  lemma {:induction false} UnreportedNotGone(c: Config, s: State, acts: seq<Action>, pid: Pid, t: BloomTuple)
    requires Inv(c, s) && Spared(s, t.tid) && Unreported(acts, t.tid) && NotGone(s, pid, t) && OnlyScans(acts, pid)
    ensures NotGone(Run(c, s, acts), pid, t)
    decreases |acts|
  {
    if acts != [] {
      assert acts[0].BeginVacuum? ==> t.tid !in acts[0].tids;
      NotGoneStep(c, s, acts[0], pid, t);
      SparedNext(c, s, acts[0], t.tid);
      NextKeepsInv(c, s, acts[0]);
      UnreportedNotGone(c, Next(c, s, acts[0]), acts[1..], pid, t);
    }
  }

  /** The scan for a stored row's own values returns the row, unless some vacuum is told that the row is dead. */
  lemma ScanFindsRow(c: Config, s: State, pid: Pid, acts: seq<Action>, o: Options, tid: TID, row: seq<Column>, keys: seq<ScanKey>)
    requires ValidOptions(o) && SignableRow(o, row) && SignableKeys(o, keys) && KeysAgree(row, keys)
    requires Inv(c, s) && pid !in s.procs && OnlyScans(acts, pid)
    requires BloomTuple(tid, RowSign(o, row, |row|)) in Stored(s.pages) && Spared(s, tid) && Unreported(acts, tid)
    requires var s' := Run(c, Next(c, s, BeginScan(pid, KeySign(o, keys, |keys|))), acts);
      pid in s'.procs && s'.procs[pid].Scanning? ==> s'.procs[pid].blk == |s'.procs[pid].snapshot|
    ensures var s' := Run(c, Next(c, s, BeginScan(pid, KeySign(o, keys, |keys|))), acts);
      pid in s'.procs && s'.procs[pid].Scanning? && tid in s'.procs[pid].result
  {
    var t, q := BloomTuple(tid, RowSign(o, row, |row|)), KeySign(o, keys, |keys|);
    KeysMatchRow(o, row, keys, |keys|);
    NextKeepsInv(c, s, BeginScan(pid, q));
    SparedNext(c, s, BeginScan(pid, q), tid);
    UnreportedNotGone(c, Next(c, s, BeginScan(pid, q)), acts, pid, t);
    ScanFindsEverything(c, s, pid, q, acts, t);
  }
}
