/**
 The weight cache: a doubly linked list kept in most-recently-used order.
 */
module LruCaches {
  import opened Maybes

  const NAMEDATALEN := 64

  datatype Entry = Entry(name: string, weight: int)

  // ---------------------------------------------------------------------
  // The sequence the list stands for
  // ---------------------------------------------------------------------

  /** strlcpy into a fixed-size name. */
  function Stored(name: string): string {
    if |name| < NAMEDATALEN then name else name[..NAMEDATALEN - 1]
  }

  /** The first position of a name, or the length. */
  function Find(s: seq<Entry>, name: string): (i: nat)
    ensures i <= |s|
    ensures i < |s| ==> s[i].name == name
    ensures forall k :: 0 <= k < i ==> s[k].name != name
  {
    if s == [] || s[0].name == name then 0 else Find(s[1..], name) + 1
  }

  function ToFront<T>(s: seq<T>, i: nat): seq<T>
    requires i < |s|
  {
    [s[i]] + s[..i] + s[i + 1..]
  }

  /** The sequence without its least recently used entry when it is full. */
  function MakeRoom(s: seq<Entry>, capacity: int): seq<Entry> {
    if |s| >= capacity && s != [] then s[..|s| - 1] else s
  }

  function Put(s: seq<Entry>, capacity: int, name: string, weight: int): seq<Entry> {
    var i := Find(s, name);
    if i < |s| then ToFront(s[i := Entry(s[i].name, weight)], i)
    else [Entry(Stored(name), weight)] + MakeRoom(s, capacity)
  }

  function Get(s: seq<Entry>, name: string): (seq<Entry>, Maybe<int>) {
    var i := Find(s, name);
    if i < |s| then (ToFront(s, i), Just(s[i].weight)) else (s, Nothing)
  }

  // ---------------------------------------------------------------------
  // The list
  // ---------------------------------------------------------------------

  class Node {
    const name: string
    var weight: int
    var prev: Node?
    var next: Node?

    constructor (name: string, weight: int)
      ensures this.name == name && this.weight == weight
    {
      this.name, this.weight := name, weight;
      prev, next := null, null;
    }
  }

  class LruCache {
    var head: Node?
    var tail: Node?
    var capacity: int
    var size: nat
    ghost var nodes: seq<Node>
    ghost var contents: seq<Entry>

    /** Node i: its neighbours and what it holds. */
    ghost predicate NodeOk(i: nat)
      requires i < |nodes| == |contents|
      reads this`nodes, this`contents, nodes
    {
      && nodes[i].prev == (if i == 0 then null else nodes[i - 1])
      && nodes[i].next == (if i + 1 == |nodes| then null else nodes[i + 1])
      && nodes[i].name == contents[i].name && nodes[i].weight == contents[i].weight
    }

    ghost predicate ListOk()
      reads this`head, this`tail, this`nodes, this`contents, nodes
    {
      && |nodes| == |contents|
      && (forall i, j :: 0 <= i < j < |nodes| ==> nodes[i] != nodes[j])
      && head == (if nodes == [] then null else nodes[0])
      && tail == (if nodes == [] then null else nodes[|nodes| - 1])
      && (forall i :: 0 <= i < |nodes| ==> NodeOk(i))
    }

    ghost predicate Valid()
      reads this, nodes
    {
      ListOk() && size == |nodes|
    }

    constructor (capacity: int)
      ensures Valid() && contents == [] && this.capacity == capacity && nodes == []
    {
      this.capacity, size, head, tail := capacity, 0, null, null;
      nodes, contents := [], [];
    }

    /** Takes node i out of the list; its own links are left as they were. */
    method Unlink(entry: Node, ghost i: nat)
      requires ListOk() && 0 < i < |nodes| && nodes[i] == entry
      modifies this`tail, this`nodes, this`contents, nodes
      ensures ListOk() && nodes == old(nodes[..i] + nodes[i + 1..]) && contents == old(contents[..i] + contents[i + 1..])
      ensures head == old(head) && entry.weight == old(entry.weight)
    {
      assert NodeOk(i) && NodeOk(i - 1);
      assert i + 1 < |nodes| ==> NodeOk(i + 1);
      if entry.prev != null { entry.prev.next := entry.next; }
      if entry.next != null { entry.next.prev := entry.prev; }
      if entry == tail { tail := entry.prev; }
      nodes, contents := nodes[..i] + nodes[i + 1..], contents[..i] + contents[i + 1..];
      forall k | 0 <= k < |nodes| ensures NodeOk(k) { assert old(NodeOk(if k < i then k else k + 1)); }
    }

    /** Puts a node that is not in the list in front. */
    method PushFront(entry: Node)
      requires ListOk() && entry !in nodes
      modifies this`head, this`tail, this`nodes, this`contents, nodes, entry
      ensures ListOk() && nodes == [entry] + old(nodes)
      ensures contents == [Entry(entry.name, old(entry.weight))] + old(contents)
    {
      assert nodes != [] ==> NodeOk(0);
      entry.next := head;
      entry.prev := null;
      if head != null { head.prev := entry; }
      head := entry;
      if tail == null { tail := entry; }
      nodes, contents := [entry] + nodes, [Entry(entry.name, entry.weight)] + contents;
      forall k | 0 <= k < |nodes| ensures NodeOk(k) {
        if k > 0 { assert old(NodeOk(k - 1)); }
      }
    }

    /** lru_cache_move_to_head. */
    method MoveToHead(entry: Node, ghost i: nat)
      requires ListOk() && i < |nodes| && nodes[i] == entry
      modifies this`head, this`tail, this`nodes, this`contents, nodes
      ensures ListOk() && nodes == ToFront(old(nodes), i) && contents == ToFront(old(contents), i)
    {
      if entry == head {
        assert i == 0;
        return;
      }
      assert NodeOk(i);
      Unlink(entry, i);
      PushFront(entry);
    }

    /** The first node with a name, and its position. */
    method Search(name: string) returns (current: Node?, ghost i: nat)
      requires ListOk()
      ensures i == Find(contents, name)
      ensures if i < |nodes| then current == nodes[i] else current == null
    {
      current, i := head, 0;
      while current != null
        invariant 0 <= i <= |nodes|
        invariant current == if i < |nodes| then nodes[i] else null
        invariant forall k :: 0 <= k < i ==> contents[k].name != name
        decreases |nodes| - i
      {
        assert NodeOk(i);
        if current.name == name {
          FindIs(contents, name, i);
          return;
        }
        current, i := current.next, i + 1;
      }
      FindIs(contents, name, i);
    }

    /** get_lru_cache: the weight stored under a name, which becomes the most recently used. */
    method Lookup(name: string) returns (r: Maybe<int>)
      requires Valid()
      modifies this`head, this`tail, this`nodes, this`contents, nodes
      ensures Valid() && forall n :: n in nodes ==> n in old(nodes)
      ensures (contents, r) == Get(old(contents), name)
    {
      var current, i := Search(name);
      if current == null { return Nothing; }
      MoveToHead(current, i);
      assert NodeOk(0);
      r := Just(current.weight);
    }

    /** Removes the least recently used entry, if there is one. */
    method Evict()
      requires Valid()
      modifies this`head, this`tail, this`size, this`nodes, this`contents, nodes
      ensures Valid() && nodes == if old(nodes) == [] then [] else old(nodes[..|nodes| - 1])
      ensures contents == if old(nodes) == [] then [] else old(contents[..|contents| - 1])
    {
      var last := tail;
      if last != null {
        assert NodeOk(|nodes| - 1);
        assert |nodes| > 1 ==> NodeOk(|nodes| - 2);
        if last.prev != null { last.prev.next := null; }
        tail := last.prev;
        if last == head { head := null; }
        nodes, contents := nodes[..|nodes| - 1], contents[..|contents| - 1];
        size := size - 1;
        forall k | 0 <= k < |nodes| ensures NodeOk(k) { assert old(NodeOk(k)); }
      }
    }

    /** The branch of put_lru_cache for a name that is in the list. */
    method Renew(current: Node, ghost i: nat, weight: int)
      requires Valid() && i < |nodes| && nodes[i] == current
      modifies this`head, this`tail, this`nodes, this`contents, nodes
      ensures Valid() && forall n :: n in nodes ==> n in old(nodes)
      ensures contents == ToFront(old(contents)[i := Entry(old(contents)[i].name, weight)], i)
    {
      current.weight := weight;
      contents := contents[i := Entry(contents[i].name, weight)];
      forall k | 0 <= k < |nodes| ensures NodeOk(k) { assert old(NodeOk(k)); }
      MoveToHead(current, i);
    }

    /** The branch for a new name. */
    method Add(name: string, weight: int)
      requires Valid()
      modifies this`head, this`tail, this`size, this`nodes, this`contents, nodes
      ensures Valid() && forall n :: n in nodes ==> n in old(nodes) || fresh(n)
      ensures contents == [Entry(Stored(name), weight)] + MakeRoom(old(contents), capacity)
    {
      if size >= capacity { Evict(); }
      var entry := new Node(Stored(name), weight);
      PushFront(entry);
      size := size + 1;
    }

    /** put_lru_cache. */
    method Insert(name: string, weight: int)
      requires Valid()
      modifies this`head, this`tail, this`size, this`nodes, this`contents, nodes
      ensures Valid() && forall n :: n in nodes ==> n in old(nodes) || fresh(n)
      ensures contents == Put(old(contents), capacity, name, weight)
    {
      var current, i := Search(name);
      if current != null {
        Renew(current, i, weight);
      } else {
        Add(name, weight);
      }
    }
  }

  lemma {:induction false} FindIs(s: seq<Entry>, name: string, i: nat)
    requires i <= |s| && (forall k :: 0 <= k < i ==> s[k].name != name) && (i < |s| ==> s[i].name == name)
    ensures Find(s, name) == i
  {
  }

  // ---------------------------------------------------------------------
  // Runs
  // ---------------------------------------------------------------------

  datatype Call = PutCall(name: string, weight: int) | GetCall(name: string)

  function Do(s: seq<Entry>, capacity: int, c: Call): seq<Entry> {
    match c
    case PutCall(name, weight) => Put(s, capacity, name, weight)
    case GetCall(name) => Get(s, name).0
  }

  /** The contents after a run from an empty cache. */
  function Run(capacity: int, calls: seq<Call>): seq<Entry> {
    if calls == [] then [] else Do(Run(capacity, calls[..|calls| - 1]), capacity, calls[|calls| - 1])
  }

  function Max(a: int, b: int): int { if a < b then b else a }

  /** The cache never holds more than its capacity; a capacity below one acts as one. */
  lemma {:induction false} RunBounded(capacity: int, calls: seq<Call>)
    ensures |Run(capacity, calls)| <= Max(capacity, 1)
  {
    if calls != [] { RunBounded(capacity, calls[..|calls| - 1]); }
  }

  predicate Distinct(s: seq<Entry>) {
    forall i, j :: 0 <= i < j < |s| ==> s[i].name != s[j].name
  }

  predicate Short(name: string) { |name| < NAMEDATALEN }

  predicate AllShort(s: seq<Entry>) {
    forall i :: 0 <= i < |s| ==> Short(s[i].name)
  }

  predicate Holds(s: seq<Entry>, name: string) {
    exists i :: 0 <= i < |s| && s[i].name == name
  }

  lemma ToFrontAt<T>(s: seq<T>, i: nat, k: nat)
    requires i < |s| && k < |s|
    ensures |ToFront(s, i)| == |s| && ToFront(s, i)[k] == if k == 0 then s[i] else if k <= i then s[k - 1] else s[k]
  {
  }

  lemma ToFrontDistinct(s: seq<Entry>, i: nat)
    requires i < |s| && Distinct(s)
    ensures Distinct(ToFront(s, i))
  {
    forall a, b | 0 <= a < b < |s| ensures ToFront(s, i)[a].name != ToFront(s, i)[b].name {
      ToFrontAt(s, i, a);
      ToFrontAt(s, i, b);
    }
  }

  /**
   Names stay distinct exactly when the new name is not cut short to one that is kept.
   A name of 64 characters or more is never found again under its full length.
   */
  lemma PutKeepsDistinct(s: seq<Entry>, capacity: int, name: string, weight: int)
    requires Distinct(s) && AllShort(s)
    ensures AllShort(Put(s, capacity, name, weight))
    ensures Distinct(Put(s, capacity, name, weight)) <==> Short(name) || !Holds(MakeRoom(s, capacity), Stored(name))
  {
    var i := Find(s, name);
    var r := Put(s, capacity, name, weight);
    if i < |s| {
      ToFrontDistinct(s[i := Entry(s[i].name, weight)], i);
      assert Short(name);
    } else {
      var kept := MakeRoom(s, capacity);
      if Holds(kept, Stored(name)) {
        var k :| 0 <= k < |kept| && kept[k].name == Stored(name);
        assert r[0].name == r[k + 1].name;
      }
    }
  }

  /** A name one character too long enters the cache twice. */
  lemma LongNameTwice(name: string)
    requires |name| == NAMEDATALEN
    ensures var s := Run(2, [PutCall(name, 1), PutCall(name, 2)]); |s| == 2 && s[0].name == s[1].name
  {
    var one := [PutCall(name, 1)];
    assert [PutCall(name, 1), PutCall(name, 2)][..1] == one && one[..0] == [];
    assert Run(2, one) == [Entry(Stored(name), 1)];
  }

  predicate ShortCalls(calls: seq<Call>) {
    forall i :: 0 <= i < |calls| ==> Short(calls[i].name)
  }

  lemma {:induction false} RunDistinct(capacity: int, calls: seq<Call>)
    requires ShortCalls(calls)
    ensures Distinct(Run(capacity, calls)) && AllShort(Run(capacity, calls))
  {
    if calls != [] {
      var n := |calls| - 1;
      RunDistinct(capacity, calls[..n]);
      var s := Run(capacity, calls[..n]);
      match calls[n] {
        case PutCall(name, weight) => PutKeepsDistinct(s, capacity, name, weight);
        case GetCall(name) =>
          var i := Find(s, name);
          if i < |s| { ToFrontDistinct(s, i); }
      }
    }
  }

  // ---------------------------------------------------------------------
  // Recency and values
  // ---------------------------------------------------------------------

  /** The last call that put the name, or got it while it was there. */
  function LastUse(capacity: int, calls: seq<Call>, name: string): int {
    if calls == [] then -1
    else
      var n := |calls| - 1;
      var c := calls[n];
      if c.name == name && (c.PutCall? || Find(Run(capacity, calls[..n]), name) < |Run(capacity, calls[..n])|) then n
      else LastUse(capacity, calls[..n], name)
  }

  /** The weight last put under a name. */
  function LastPut(calls: seq<Call>, name: string): Maybe<int> {
    if calls == [] then Nothing
    else
      var c := calls[|calls| - 1];
      if c.PutCall? && c.name == name then Just(c.weight) else LastPut(calls[..|calls| - 1], name)
  }

  lemma {:induction false} LastUseBound(capacity: int, calls: seq<Call>, name: string)
    ensures LastUse(capacity, calls, name) < |calls|
  {
    if calls != [] { LastUseBound(capacity, calls[..|calls| - 1], name); }
  }

  predicate ByRecency(capacity: int, calls: seq<Call>, s: seq<Entry>) {
    forall i, j :: 0 <= i < j < |s| ==> LastUse(capacity, calls, s[i].name) > LastUse(capacity, calls, s[j].name)
  }

  /** The first name stands somewhere left of the second. */
  predicate InOrder(s: seq<Entry>, x: string, y: string) {
    exists i, j :: 0 <= i < j < |s| && s[i].name == x && s[j].name == y
  }

  /** What a call does to the order: the name it uses comes first, the others keep theirs. */
  predicate UsesFirst(s: seq<Entry>, r: seq<Entry>, name: string) {
    && r != [] && r[0].name == name
    && (forall k :: 0 < k < |r| ==> r[k].name != name && Holds(s, r[k].name))
    && (forall a, b :: 0 < a < b < |r| ==> InOrder(s, r[a].name, r[b].name))
  }

  lemma ToFrontUsesFirst(s: seq<Entry>, i: nat, t: seq<Entry>)
    requires i < |s| && Distinct(s) && |t| == |s| && forall k :: 0 <= k < |s| ==> t[k].name == s[k].name
    ensures UsesFirst(s, ToFront(t, i), s[i].name)
  {
    var r := ToFront(t, i);
    forall k | 0 < k < |r| ensures r[k].name != s[i].name && Holds(s, r[k].name) {
      ToFrontAt(t, i, k);
      var o := if k <= i then k - 1 else k;
      assert r[k].name == s[o].name;
    }
    forall a, b | 0 < a < b < |r| ensures InOrder(s, r[a].name, r[b].name) {
      ToFrontAt(t, i, a);
      ToFrontAt(t, i, b);
      var x, y := if a <= i then a - 1 else a, if b <= i then b - 1 else b;
      assert s[x].name == r[a].name && s[y].name == r[b].name;
    }
    ToFrontAt(t, i, 0);
  }

  lemma NewUsesFirst(s: seq<Entry>, kept: seq<Entry>, e: Entry)
    requires Distinct(s) && kept <= s && !Holds(s, e.name)
    ensures UsesFirst(s, [e] + kept, e.name)
  {
    var r := [e] + kept;
    forall k | 0 < k < |r| ensures r[k].name != e.name && Holds(s, r[k].name) {
      assert r[k] == s[k - 1];
    }
    forall a, b | 0 < a < b < |r| ensures InOrder(s, r[a].name, r[b].name) {
      assert r[a] == s[a - 1] && r[b] == s[b - 1];
    }
  }

  lemma DoUsesFirst(s: seq<Entry>, capacity: int, c: Call)
    requires Distinct(s) && Short(c.name)
    ensures c.PutCall? || Find(s, c.name) < |s| ==> UsesFirst(s, Do(s, capacity, c), c.name)
    ensures c.GetCall? && Find(s, c.name) == |s| ==> Do(s, capacity, c) == s
  {
    var i := Find(s, c.name);
    if i < |s| {
      ToFrontUsesFirst(s, i, if c.PutCall? then s[i := Entry(s[i].name, c.weight)] else s);
    } else if c.PutCall? {
      NewUsesFirst(s, MakeRoom(s, capacity), Entry(Stored(c.name), c.weight));
    }
  }

  /** A call that uses a name makes it the most recent; the others keep their last use. */
  lemma OneMoreUse(capacity: int, calls: seq<Call>, c: Call, s: seq<Entry>, r: seq<Entry>)
    requires s == Run(capacity, calls) && ByRecency(capacity, calls, s) && UsesFirst(s, r, c.name)
    requires c.PutCall? || Find(s, c.name) < |s|
    ensures ByRecency(capacity, calls + [c], r)
  {
    var now := calls + [c];
    assert now[..|calls|] == calls;
    forall name ensures LastUse(capacity, now, name) == if name == c.name then |calls| else LastUse(capacity, calls, name) {}
    forall a, b | 0 <= a < b < |r| ensures LastUse(capacity, now, r[a].name) > LastUse(capacity, now, r[b].name) {
      LastUseBound(capacity, calls, r[b].name);
      if a > 0 {
        assert InOrder(s, r[a].name, r[b].name);
        var i, j :| 0 <= i < j < |s| && s[i].name == r[a].name && s[j].name == r[b].name;
      }
    }
  }

  lemma NoUse(capacity: int, calls: seq<Call>, c: Call, s: seq<Entry>)
    requires s == Run(capacity, calls) && ByRecency(capacity, calls, s) && c.GetCall? && Find(s, c.name) == |s|
    ensures ByRecency(capacity, calls + [c], s)
  {
    var now := calls + [c];
    assert now[..|calls|] == calls;
    forall name ensures LastUse(capacity, now, name) == LastUse(capacity, calls, name) {}
  }

  /** The cache is always ordered by last use, most recent first. */
  lemma {:induction false} RunByRecency(capacity: int, calls: seq<Call>)
    requires ShortCalls(calls)
    ensures ByRecency(capacity, calls, Run(capacity, calls))
  {
    if calls != [] {
      var n := |calls| - 1;
      var before, c := calls[..n], calls[n];
      var s := Run(capacity, before);
      RunByRecency(capacity, before);
      RunDistinct(capacity, before);
      DoUsesFirst(s, capacity, c);
      assert calls == before + [c];
      if c.PutCall? || Find(s, c.name) < |s| {
        OneMoreUse(capacity, before, c, s, Do(s, capacity, c));
      } else {
        NoUse(capacity, before, c, s);
      }
    }
  }

  /** What a full cache drops for a new name was used before everything it keeps. */
  lemma EvictsLeastRecent(capacity: int, calls: seq<Call>, name: string, weight: int, k: nat)
    requires ShortCalls(calls) && Short(name)
    requires var s := Run(capacity, calls); !Holds(s, name) && |s| >= capacity && k < |s| - 1
    ensures var s := Run(capacity, calls);
      && LastUse(capacity, calls, s[k].name) > LastUse(capacity, calls, s[|s| - 1].name)
      && Put(s, capacity, name, weight) == [Entry(name, weight)] + s[..|s| - 1]
  {
    RunByRecency(capacity, calls);
    var s := Run(capacity, calls);
    var i := Find(s, name);
    if i < |s| { assert Holds(s, name); }
  }

  /** A weight found in the cache is the one last put under its name. */
  lemma {:induction false} RunIsCoherent(capacity: int, calls: seq<Call>, k: nat)
    requires ShortCalls(calls) && k < |Run(capacity, calls)|
    ensures LastPut(calls, Run(capacity, calls)[k].name) == Just(Run(capacity, calls)[k].weight)
  {
    var n := |calls| - 1;
    var s := Run(capacity, calls[..n]);
    RunDistinct(capacity, calls[..n]);
    forall m | 0 <= m < |s| ensures LastPut(calls[..n], s[m].name) == Just(s[m].weight) {
      RunIsCoherent(capacity, calls[..n], m);
    }
    var i := Find(s, calls[n].name);
    if i < |s| {
      ToFrontAt(if calls[n].PutCall? then s[i := Entry(s[i].name, calls[n].weight)] else s, i, k);
    }
  }

  // ---------------------------------------------------------------------
  // The weight pool
  // ---------------------------------------------------------------------

  const POOL_SIZE := 1024 * 1024 * 1024
  const LRU_CACHE_SIZE := 128 * 1024 * 1024

  /** The bytes of all stored weights. */
  ghost function Total(sizes: map<string, nat>): nat {
    if sizes == map[] then 0 else var name :| name in sizes; sizes[name] + Total(sizes - {name})
  }

  lemma {:induction false} TotalWithout(sizes: map<string, nat>, name: string)
    requires name in sizes
    ensures Total(sizes) == sizes[name] + Total(sizes - {name})
    decreases |sizes|
  {
    var other :| other in sizes && Total(sizes) == sizes[other] + Total(sizes - {other});
    if other != name {
      TotalWithout(sizes - {other}, name);
      TotalWithout(sizes - {name}, other);
      assert sizes - {other} - {name} == sizes - {name} - {other};
    }
  }

  lemma TotalUpdate(sizes: map<string, nat>, name: string, n: nat)
    ensures Total(sizes[name := n]) == n + Total(sizes - {name})
    ensures name !in sizes ==> Total(sizes - {name}) == Total(sizes)
  {
    TotalWithout(sizes[name := n], name);
    assert sizes[name := n] - {name} == sizes - {name};
    if name !in sizes { assert sizes - {name} == sizes; }
  }

  class WeightPool {
    var sizes: map<string, nat>
    var usage: int

    /** The counter is the cache's share plus the bytes stored, and stays within the pool. */
    ghost predicate Valid()
      reads this
    {
      usage == LRU_CACHE_SIZE + Total(sizes) && usage <= POOL_SIZE
    }

    constructor ()
      ensures Valid() && sizes == map[]
    {
      sizes, usage := map[], LRU_CACHE_SIZE;
    }

    /** insert_weight; the limit is compared before a replaced weight's bytes are given back. */
    method InsertWeight(name: string, size: nat) returns (ok: bool)
      requires Valid()
      modifies this
      ensures Valid()
      ensures ok <==> LRU_CACHE_SIZE + old(Total(sizes)) + size <= POOL_SIZE
      ensures sizes == if ok then old(sizes)[Stored(name) := size] else old(sizes)
    {
      if usage + size > POOL_SIZE { return false; }
      var key := Stored(name);
      TotalUpdate(sizes, key, size);
      if key in sizes {
        TotalWithout(sizes, key);
        usage := usage - sizes[key];
      }
      sizes, usage := sizes[key := size], usage + size;
      ok := true;
    }
  }
}
