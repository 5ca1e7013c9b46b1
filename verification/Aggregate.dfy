/**
 The parallel array aggregate: accumulating arrays into a build state, sending a
 state between processes, combining states, and the final two-dimensional array.
 States here hold no nulls, except where a state is sent.
 */
module ArrayAggregate {
  import opened Maybes

  type byte = x: int | 0 <= x < 256

  const MAXDIM: nat := 6

  datatype State = State(elementType: nat, arrayType: nat, data: seq<byte>, abytes: nat, aitems: nat,
                         bitmap: Maybe<seq<byte>>, nitems: nat, ndims: nat, dims: seq<int>, lbs: seq<int>)

  // ---------------------------------------------------------------------
  // Numbers in messages
  // ---------------------------------------------------------------------

  function Byte(n: int, unit: int): byte
    requires unit > 0
  {
    n / unit % 256
  }

  function Join(a: int, b: int, c: int, d: int): int {
    ((a * 256 + b) * 256 + c) * 256 + d
  }

  lemma JoinBytes(n: int)
    requires 0 <= n < 0x1_0000_0000
    ensures Join(Byte(n, 0x100_0000), Byte(n, 0x1_0000), Byte(n, 0x100), Byte(n, 1)) == n
  {
    assert n / 0x1_0000 == n / 0x100 / 256 && n / 0x100_0000 == n / 0x1_0000 / 256;
  }

  /** Network byte order. */
  function Int32(n: nat): seq<byte> {
    [Byte(n, 0x100_0000), Byte(n, 0x1_0000), Byte(n, 0x100), Byte(n, 1)]
  }

  function TakeInt32(b: seq<byte>): Maybe<(nat, seq<byte>)> {
    if |b| < 4 then Nothing else Just((Join(b[0], b[1], b[2], b[3]), b[4..]))
  }

  function TakeBytes(b: seq<byte>, n: nat): Maybe<(seq<byte>, seq<byte>)> {
    if |b| < n then Nothing else Just((b[..n], b[n..]))
  }

  lemma Int32RoundTrip(n: nat, rest: seq<byte>)
    requires n < 0x1_0000_0000
    ensures TakeInt32(Int32(n) + rest) == Just((n, rest))
  {
    JoinBytes(n);
    assert (Int32(n) + rest)[4..] == rest;
  }

  lemma BytesRoundTrip(s: seq<byte>, rest: seq<byte>)
    ensures TakeBytes(s + rest, |s|) == Just((s, rest))
  {
  }

  predicate IsInt32(x: int) { -0x8000_0000 <= x < 0x8000_0000 }

  /** An integer as it lies in memory, least significant byte first. */
  function Raw(x: int): seq<byte>
    requires IsInt32(x)
  {
    var n := if x < 0 then x + 0x1_0000_0000 else x;
    [Byte(n, 1), Byte(n, 0x100), Byte(n, 0x1_0000), Byte(n, 0x100_0000)]
  }

  function FromRaw(b: seq<byte>): int
    requires |b| == 4
  {
    var n := Join(b[3], b[2], b[1], b[0]);
    if n < 0x8000_0000 then n else n - 0x1_0000_0000
  }

  lemma RawRoundTrip(x: int)
    requires IsInt32(x)
    ensures FromRaw(Raw(x)) == x
  {
    JoinBytes(if x < 0 then x + 0x1_0000_0000 else x);
  }

  function RawAll(s: seq<int>): (r: seq<byte>)
    requires forall i :: 0 <= i < |s| ==> IsInt32(s[i])
    ensures |r| == 4 * |s|
  {
    if s == [] then [] else Raw(s[0]) + RawAll(s[1..])
  }

  function FromRawAll(b: seq<byte>, n: nat): seq<int>
    requires |b| == 4 * n
  {
    if n == 0 then [] else [FromRaw(b[..4])] + FromRawAll(b[4..], n - 1)
  }

  lemma {:induction false} RawAllRoundTrip(s: seq<int>)
    requires forall i :: 0 <= i < |s| ==> IsInt32(s[i])
    ensures FromRawAll(RawAll(s), |s|) == s
  {
    if s != [] {
      RawRoundTrip(s[0]);
      RawAllRoundTrip(s[1..]);
      assert (Raw(s[0]) + RawAll(s[1..]))[..4] == Raw(s[0]);
      assert (Raw(s[0]) + RawAll(s[1..]))[4..] == RawAll(s[1..]);
    }
  }

  // ---------------------------------------------------------------------
  // Serialising
  // ---------------------------------------------------------------------

  const INT_MAX: nat := 0x7fff_ffff

  /** A state as the aggregate keeps it: a bitmap exactly when items are allocated for one. */
  predicate Sendable(s: State) {
    && s.elementType < 0x1_0000_0000 && s.arrayType < 0x1_0000_0000
    && |s.data| <= INT_MAX && s.abytes <= INT_MAX && s.aitems <= INT_MAX && s.nitems <= INT_MAX && s.ndims <= INT_MAX
    && |s.dims| == |s.lbs| == MAXDIM
    && (forall i :: 0 <= i < MAXDIM ==> IsInt32(s.dims[i]) && IsInt32(s.lbs[i]))
    && (s.bitmap.Just? <==> s.aitems > 0) && (s.bitmap.Just? ==> |s.bitmap.value| == (s.aitems + 7) / 8)
  }

  function Encoded(s: State): seq<byte>
    requires Sendable(s)
  {
    Int32(s.elementType) + (Int32(s.arrayType) + (Int32(|s.data|) + (s.data + (Int32(s.abytes) + (Int32(s.aitems)
      + ((if s.bitmap.Just? then s.bitmap.value else []) + (Int32(s.nitems) + (Int32(s.ndims)
      + (RawAll(s.dims) + RawAll(s.lbs))))))))))
  }

  /** The part after the null bitmap. */
  function DecodeTail(b: seq<byte>): Maybe<(nat, nat, seq<int>, seq<int>)> {
    var (nitems, b1) :- TakeInt32(b);
    var (ndims, b2) :- TakeInt32(b1);
    var (dims, b3) :- TakeBytes(b2, 4 * MAXDIM);
    var (lbs, b4) :- TakeBytes(b3, 4 * MAXDIM);
    if b4 != [] then Nothing else Just((nitems, ndims, FromRawAll(dims, MAXDIM), FromRawAll(lbs, MAXDIM)))
  }

  /** The part from the null bitmap on. */
  function DecodeBitmap(b: seq<byte>, aitems: nat): Maybe<(Maybe<seq<byte>>, seq<byte>)> {
    if aitems == 0 then Just((Nothing, b))
    else
      var (bits, rest) :- TakeBytes(b, (aitems + 7) / 8);
      Just((Just(bits), rest))
  }

  /** The types and the data. */
  function DecodeHead(b: seq<byte>): Maybe<(nat, nat, seq<byte>, seq<byte>)> {
    var (elementType, b1) :- TakeInt32(b);
    var (arrayType, b2) :- TakeInt32(b1);
    var (nbytes, b3) :- TakeInt32(b2);
    var (data, b4) :- TakeBytes(b3, nbytes);
    Just((elementType, arrayType, data, b4))
  }

  /** The sizes of the buffers and the null bitmap. */
  function DecodeSizes(b: seq<byte>): Maybe<(nat, nat, Maybe<seq<byte>>, seq<byte>)> {
    var (abytes, b1) :- TakeInt32(b);
    var (aitems, b2) :- TakeInt32(b1);
    var (bitmap, b3) :- DecodeBitmap(b2, aitems);
    Just((abytes, aitems, bitmap, b3))
  }

  function Decoded(b: seq<byte>): Maybe<State> {
    var (elementType, arrayType, data, b1) :- DecodeHead(b);
    var (abytes, aitems, bitmap, b2) :- DecodeSizes(b1);
    var (nitems, ndims, dims, lbs) :- DecodeTail(b2);
    Just(State(elementType, arrayType, data, abytes, aitems, bitmap, nitems, ndims, dims, lbs))
  }

  lemma TailRoundTrip(s: State)
    requires Sendable(s)
    ensures DecodeTail(Int32(s.nitems) + (Int32(s.ndims) + (RawAll(s.dims) + RawAll(s.lbs))))
      == Just((s.nitems, s.ndims, s.dims, s.lbs))
  {
    Int32RoundTrip(s.nitems, Int32(s.ndims) + (RawAll(s.dims) + RawAll(s.lbs)));
    Int32RoundTrip(s.ndims, RawAll(s.dims) + RawAll(s.lbs));
    BytesRoundTrip(RawAll(s.dims), RawAll(s.lbs));
    BytesRoundTrip(RawAll(s.lbs), []);
    assert RawAll(s.lbs) + [] == RawAll(s.lbs);
    RawAllRoundTrip(s.dims);
    RawAllRoundTrip(s.lbs);
  }

  lemma BitmapRoundTrip(s: State, rest: seq<byte>)
    requires Sendable(s)
    ensures DecodeBitmap((if s.bitmap.Just? then s.bitmap.value else []) + rest, s.aitems) == Just((s.bitmap, rest))
  {
    if s.bitmap.Just? { BytesRoundTrip(s.bitmap.value, rest); } else { assert [] + rest == rest; }
  }

  /** A state survives being sent. */
  lemma RoundTrip(s: State)
    requires Sendable(s)
    ensures Decoded(Encoded(s)) == Just(s)
  {
    var tail := Int32(s.nitems) + (Int32(s.ndims) + (RawAll(s.dims) + RawAll(s.lbs)));
    var b6 := (if s.bitmap.Just? then s.bitmap.value else []) + tail;
    var b5 := Int32(s.aitems) + b6;
    var b4 := Int32(s.abytes) + b5;
    var b3 := s.data + b4;
    var b2 := Int32(|s.data|) + b3;
    var b1 := Int32(s.arrayType) + b2;
    assert Encoded(s) == Int32(s.elementType) + b1;
    Int32RoundTrip(s.elementType, b1);
    Int32RoundTrip(s.arrayType, b2);
    Int32RoundTrip(|s.data|, b3);
    BytesRoundTrip(s.data, b4);
    Int32RoundTrip(s.abytes, b5);
    Int32RoundTrip(s.aitems, b6);
    BitmapRoundTrip(s, tail);
    TailRoundTrip(s);
  }

  /** A message buffer: bytes are appended when sending, and a cursor moves over them when receiving. */
  class Message {
    var data: seq<byte>
    var cursor: nat

    ghost predicate Valid()
      reads this
    {
      cursor <= |data|
    }

    /** What is left to receive. */
    ghost function Rest(): seq<byte>
      requires Valid()
      reads this
    {
      data[cursor..]
    }

    constructor (data: seq<byte>)
      ensures Valid() && this.data == data && cursor == 0
    {
      this.data, cursor := data, 0;
    }

    method Send(s: seq<byte>)
      modifies this`data
      ensures data == old(data) + s
    {
      data := data + s;
    }

    /** Sends the first part of what is still to be sent. */
    method SendFirst(s: seq<byte>, ghost rest: seq<byte>, ghost whole: seq<byte>)
      requires data + (s + rest) == whole
      modifies this`data
      ensures data + rest == whole
    {
      ghost var sent := data;
      Send(s);
      assert (sent + s) + rest == sent + (s + rest);
    }

    method GetInt32() returns (r: Maybe<nat>)
      requires Valid()
      modifies this`cursor
      ensures Valid() && TakeInt32(old(Rest())) == if r.Just? then Just((r.value, Rest())) else Nothing
    {
      if cursor + 4 > |data| { return Nothing; }
      r := Just(Join(data[cursor], data[cursor + 1], data[cursor + 2], data[cursor + 3]));
      assert data[cursor..][4..] == data[cursor + 4..];
      cursor := cursor + 4;
    }

    method GetBytes(n: nat) returns (r: Maybe<seq<byte>>)
      requires Valid()
      modifies this`cursor
      ensures Valid() && TakeBytes(old(Rest()), n) == if r.Just? then Just((r.value, Rest())) else Nothing
    {
      if cursor + n > |data| { return Nothing; }
      r := Just(data[cursor..cursor + n]);
      assert data[cursor..][n..] == data[cursor + n..];
      assert data[cursor..][..n] == data[cursor..cursor + n];
      cursor := cursor + n;
    }

    method GetHead() returns (r: Maybe<(nat, nat, seq<byte>)>)
      requires Valid()
      modifies this`cursor
      ensures Valid()
      ensures DecodeHead(old(Rest())) == if r.Just? then Just((r.value.0, r.value.1, r.value.2, Rest())) else Nothing
    {
      var elementType := GetInt32();
      if elementType.Nothing? { return Nothing; }
      var arrayType := GetInt32();
      if arrayType.Nothing? { return Nothing; }
      var nbytes := GetInt32();
      if nbytes.Nothing? { return Nothing; }
      var data := GetBytes(nbytes.value);
      if data.Nothing? { return Nothing; }
      r := Just((elementType.value, arrayType.value, data.value));
    }

    method GetSizes() returns (r: Maybe<(nat, nat, Maybe<seq<byte>>)>)
      requires Valid()
      modifies this`cursor
      ensures Valid()
      ensures DecodeSizes(old(Rest())) == if r.Just? then Just((r.value.0, r.value.1, r.value.2, Rest())) else Nothing
    {
      var abytes := GetInt32();
      if abytes.Nothing? { return Nothing; }
      var aitems := GetInt32();
      if aitems.Nothing? { return Nothing; }
      var bitmap: Maybe<seq<byte>> := Nothing;
      if aitems.value > 0 {
        bitmap := GetBytes((aitems.value + 7) / 8);
        if bitmap.Nothing? { return Nothing; }
      }
      r := Just((abytes.value, aitems.value, bitmap));
    }

    /** The fields after the null bitmap, and the end of the message. */
    method GetTail() returns (r: Maybe<(nat, nat, seq<int>, seq<int>)>)
      requires Valid()
      modifies this`cursor
      ensures Valid() && r == DecodeTail(old(Rest()))
    {
      var nitems := GetInt32();
      if nitems.Nothing? { return Nothing; }
      var ndims := GetInt32();
      if ndims.Nothing? { return Nothing; }
      var dims := GetBytes(4 * MAXDIM);
      if dims.Nothing? { return Nothing; }
      var lbs := GetBytes(4 * MAXDIM);
      if lbs.Nothing? { return Nothing; }
      if cursor != |data| { return Nothing; }
      r := Just((nitems.value, ndims.value, FromRawAll(dims.value, MAXDIM), FromRawAll(lbs.value, MAXDIM)));
    }
  }

  /** array_agg_array_serialize. */
  method Serialize(s: State) returns (b: seq<byte>)
    requires Sendable(s)
    ensures b == Encoded(s)
  {
    var m := new Message([]);
    ghost var tail := Int32(s.nitems) + (Int32(s.ndims) + (RawAll(s.dims) + RawAll(s.lbs)));
    ghost var b6 := (if s.bitmap.Just? then s.bitmap.value else []) + tail;
    ghost var b5 := Int32(s.aitems) + b6;
    ghost var b4 := Int32(s.abytes) + b5;
    ghost var b3 := s.data + b4;
    ghost var b2 := Int32(|s.data|) + b3;
    ghost var b1 := Int32(s.arrayType) + b2;
    m.Send(Int32(s.elementType));
    assert m.data + b1 == Encoded(s);
    m.SendFirst(Int32(s.arrayType), b2, Encoded(s));
    m.SendFirst(Int32(|s.data|), b3, Encoded(s));
    m.SendFirst(s.data, b4, Encoded(s));
    m.SendFirst(Int32(s.abytes), b5, Encoded(s));
    m.SendFirst(Int32(s.aitems), b6, Encoded(s));
    if s.bitmap.Just? { m.SendFirst(s.bitmap.value, tail, Encoded(s)); } else { assert b6 == tail; }
    m.SendFirst(Int32(s.nitems), Int32(s.ndims) + (RawAll(s.dims) + RawAll(s.lbs)), Encoded(s));
    m.SendFirst(Int32(s.ndims), RawAll(s.dims) + RawAll(s.lbs), Encoded(s));
    m.SendFirst(RawAll(s.dims), RawAll(s.lbs), Encoded(s));
    m.Send(RawAll(s.lbs));
    b := m.data;
  }

  /** array_agg_array_deserialize: every read is checked against the end of the message. */
  method Deserialize(b: seq<byte>) returns (r: Maybe<State>)
    ensures r == Decoded(b)
  {
    var m := new Message(b);
    assert b[0..] == b;
    var head := m.GetHead();
    if head.Nothing? { return Nothing; }
    var (elementType, arrayType, data) := head.value;
    var sizes := m.GetSizes();
    if sizes.Nothing? { return Nothing; }
    var (abytes, aitems, bitmap) := sizes.value;
    var tail := m.GetTail();
    if tail.Nothing? { return Nothing; }
    var (nitems, ndims, dims, lbs) := tail.value;
    r := Just(State(elementType, arrayType, data, abytes, aitems, bitmap, nitems, ndims, dims, lbs));
  }

  // ---------------------------------------------------------------------
  // Accumulating and combining
  // ---------------------------------------------------------------------

  /** An input array without nulls. */
  datatype Input = Input(dims: seq<int>, lbs: seq<int>, data: seq<byte>)

  /** Only the empty array has no dimensions; no other array has an empty one. */
  predicate IsInput(x: Input) {
    |x.dims| == |x.lbs| <= MAXDIM && forall i :: 0 <= i < |x.dims| ==> x.dims[i] > 0
  }

  function Product(s: seq<int>): int {
    if s == [] then 1 else Product(s[..|s| - 1]) * s[|s| - 1]
  }

  lemma {:induction false} ProductPositive(s: seq<int>)
    requires forall i :: 0 <= i < |s| ==> s[i] > 0
    ensures Product(s) > 0
  {
    if s != [] { ProductPositive(s[..|s| - 1]); }
  }

  function NItems(x: Input): nat
    requires IsInput(x)
  {
    ProductPositive(x.dims);
    Product(x.dims)
  }

  function Padded(s: seq<int>): seq<int>
    requires |s| <= MAXDIM
  {
    s + seq(MAXDIM - |s|, _ => 0)
  }

  function Max(a: nat, b: nat): nat { if a < b then b else a }

  /** The least power of two that is at least n. */
  function NextPower2(n: nat): (p: nat)
    ensures p >= n
  {
    DoubleUntil(1, n)
  }

  function DoubleUntil(p: nat, n: nat): (r: nat)
    requires p > 0
    ensures r >= n
    decreases n - p
  {
    if p >= n then p else DoubleUntil(2 * p, n)
  }

  datatype Outcome = Error | Ok(state: Maybe<State>)

  /** The input's shape is the state's, without the first dimension. */
  predicate SameShape(s: State, ndims: nat, dims: seq<int>, lbs: seq<int>) {
    && s.ndims == ndims && ndims <= |dims| && ndims <= |lbs| && ndims <= |s.dims| && ndims <= |s.lbs|
    && forall i :: 1 <= i < ndims ==> s.dims[i] == dims[i] && s.lbs[i] == lbs[i]
  }

  function Grown(s: State, data: seq<byte>, items: nat, rows: int, abytes: nat): State
    requires |s.dims| == MAXDIM
  {
    s.(data := s.data + data, abytes := abytes, nitems := s.nitems + items, dims := s.dims[0 := s.dims[0] + rows])
  }

  /** accumArrayResultArr: one more input. */
  function Accumulate(types: (nat, nat), o: Outcome, x: Input): Outcome
    requires IsInput(x) && OutcomeOk(o)
  {
    match o
    case Error => Error
    case Ok(Nothing) =>
      if x.dims == [] || |x.dims| + 1 > MAXDIM then Error
      else Ok(Just(State(types.0, types.1, x.data, NextPower2(Max(1024, |x.data| + 1)), 0, Nothing, NItems(x), |x.dims| + 1,
                         Padded([1] + x.dims), Padded([1] + x.lbs))))
    case Ok(Just(s)) =>
      if |x.dims| + 1 <= MAXDIM && SameShape(s, |x.dims| + 1, Padded([1] + x.dims), Padded([1] + x.lbs))
      then
        var need := |s.data| + |x.data|;
        Ok(Just(Grown(s, x.data, NItems(x), 1, if need > s.abytes then Max(2 * s.abytes, need) else s.abytes)))
      else Error
  }

  /**
   States reached by accumulating and combining: no nulls, something in them, data that fits
   the buffer, nothing beyond their dimensions.
   */
  predicate StateOk(s: State) {
    && |s.data| <= s.abytes
    && s.bitmap == Nothing && s.aitems == 0 && s.nitems > 0 && 2 <= s.ndims <= MAXDIM
    && |s.dims| == |s.lbs| == MAXDIM && s.lbs[0] == 1
    && (forall i :: s.ndims <= i < MAXDIM ==> s.dims[i] == 0 && s.lbs[i] == 0)
  }

  predicate OutcomeOk(o: Outcome) { o.Ok? && o.state.Just? ==> StateOk(o.state.value) }

  /** array_2d_agg_combine. */
  function Combine(a: Outcome, b: Outcome): Outcome
    requires OutcomeOk(a) && OutcomeOk(b)
  {
    if a.Error? || b.Error? then Error
    else if b.state.Nothing? then a
    else if a.state.Nothing? then b
    else
      var s, t := a.state.value, b.state.value;
      if SameShape(s, t.ndims, t.dims, t.lbs)
      then
        var need := |s.data| + |t.data|;
        Ok(Just(Grown(s, t.data, t.nitems, t.dims[0], if s.abytes < need then NextPower2(need) else s.abytes)))
      else Error
  }

  /** Equal but for the size of the buffer. */
  predicate Alike(a: Outcome, b: Outcome) {
    if a.Error? || b.Error? then a == b
    else if a.state.Nothing? || b.state.Nothing? then a == b
    else a.state.value.(abytes := 0) == b.state.value.(abytes := 0)
  }

  lemma AccumulateOk(types: (nat, nat), o: Outcome, x: Input)
    requires IsInput(x) && OutcomeOk(o)
    ensures OutcomeOk(Accumulate(types, o, x))
  {
    ProductPositive(x.dims);
  }

  lemma CombineOk(a: Outcome, b: Outcome)
    requires OutcomeOk(a) && OutcomeOk(b)
    ensures OutcomeOk(Combine(a, b))
  {
  }

  // ---------------------------------------------------------------------
  // In place
  // ---------------------------------------------------------------------

  /** The state as an object: its data, counts and dimensions are updated in place. */
  class BuildState {
    var elementType: nat
    var arrayType: nat
    var data: seq<byte>
    var abytes: nat
    var nitems: nat
    var ndims: nat
    var dims: seq<int>
    var lbs: seq<int>

    /** The state as a value; it has no null bitmap. */
    ghost function Value(): State
      reads this
    {
      State(elementType, arrayType, data, abytes, 0, Nothing, nitems, ndims, dims, lbs)
    }

    constructor (s: State)
      requires StateOk(s)
      ensures Value() == s
    {
      elementType, arrayType, data, abytes := s.elementType, s.arrayType, s.data, s.abytes;
      nitems, ndims, dims, lbs := s.nitems, s.ndims, s.dims, s.lbs;
    }

    /** The loop that compares all dimensions but the first. */
    method CheckShape(n: nat, ds: seq<int>, ls: seq<int>) returns (ok: bool)
      requires StateOk(Value()) && n <= MAXDIM == |ds| == |ls|
      ensures ok <==> SameShape(Value(), n, ds, ls)
    {
      if ndims != n { return false; }
      var i := 1;
      while i < ndims
        invariant 1 <= i <= ndims
        invariant forall k :: 1 <= k < i ==> dims[k] == ds[k] && lbs[k] == ls[k]
      {
        if dims[i] != ds[i] || lbs[i] != ls[i] { return false; }
        i := i + 1;
      }
      return true;
    }

    /** Appends data that passed the shape check. */
    method Append(more: seq<byte>, items: nat, rows: int, size: nat)
      requires StateOk(Value())
      modifies this
      ensures Value() == Grown(old(Value()), more, items, rows, size)
    {
      abytes := size;
      data := data + more;
      nitems := nitems + items;
      dims := dims[0 := dims[0] + rows];
    }

    /** The second and later inputs of accumArrayResultArr. */
    method AddInput(x: Input) returns (ok: bool)
      requires StateOk(Value()) && IsInput(x)
      modifies this
      ensures var types := (old(elementType), old(arrayType));
        Accumulate(types, Ok(Just(old(Value()))), x) == if ok then Ok(Just(Value())) else Error
      ensures !ok ==> Value() == old(Value())
    {
      if |x.dims| + 1 > MAXDIM { return false; }
      ok := CheckShape(|x.dims| + 1, Padded([1] + x.dims), Padded([1] + x.lbs));
      if !ok { return; }
      var need := |data| + |x.data|;
      Append(x.data, NItems(x), 1, if need > abytes then Max(2 * abytes, need) else abytes);
    }

    /** array_2d_agg_combine on two states that both hold items. */
    method CombineWith(other: BuildState) returns (ok: bool)
      requires StateOk(Value()) && StateOk(other.Value()) && other != this
      modifies this
      ensures Combine(Ok(Just(old(Value()))), Ok(Just(other.Value()))) == if ok then Ok(Just(Value())) else Error
      ensures !ok ==> Value() == old(Value())
    {
      ok := CheckShape(other.ndims, other.dims, other.lbs);
      if !ok { return; }
      var need := |data| + |other.data|;
      Append(other.data, other.nitems, other.dims[0], if abytes < need then NextPower2(need) else abytes);
    }
  }

  // ---------------------------------------------------------------------
  // Parallel is sequential
  // ---------------------------------------------------------------------

  predicate Inputs(xs: seq<Input>) { forall i :: 0 <= i < |xs| ==> IsInput(xs[i]) }

  /** All inputs in one process. */
  function AccumulateAll(types: (nat, nat), xs: seq<Input>): (o: Outcome)
    requires Inputs(xs)
    ensures OutcomeOk(o)
  {
    if xs == [] then Ok(Nothing)
    else
      AccumulateOk(types, AccumulateAll(types, xs[..|xs| - 1]), xs[|xs| - 1]);
      Accumulate(types, AccumulateAll(types, xs[..|xs| - 1]), xs[|xs| - 1])
  }

  lemma AlikeAccumulate(types: (nat, nat), a: Outcome, b: Outcome, x: Input)
    requires OutcomeOk(a) && OutcomeOk(b) && IsInput(x) && Alike(a, b)
    ensures Alike(Accumulate(types, a, x), Accumulate(types, b, x))
  {
  }

  /** An input after a combination, or a combination after the input. */
  lemma AccumulateAfterCombine(types: (nat, nat), a: Outcome, b: Outcome, x: Input)
    requires OutcomeOk(a) && OutcomeOk(b) && IsInput(x)
    requires OutcomeOk(Combine(a, b)) && OutcomeOk(Accumulate(types, b, x))
    ensures Alike(Accumulate(types, Combine(a, b), x), Combine(a, Accumulate(types, b, x)))
  {
    if a.Ok? && b.Ok? && a.state.Just? && b.state.Just? {
      GrownTwice(a.state.value, b.state.value, x);
    }
  }

  lemma GrownTwice(s: State, t: State, x: Input)
    requires StateOk(s) && StateOk(t) && IsInput(x)
    ensures (s.data + t.data) + x.data == s.data + (t.data + x.data)
    ensures s.dims[0 := s.dims[0] + t.dims[0]][0 := s.dims[0] + t.dims[0] + 1] == s.dims[0 := s.dims[0] + (t.dims[0] + 1)]
  {
  }

  lemma AlikeTransitive(a: Outcome, b: Outcome, c: Outcome)
    requires Alike(a, b) && Alike(b, c)
    ensures Alike(a, c)
  {
  }

  lemma AccumulateLast(types: (nat, nat), xs: seq<Input>, x: Input)
    requires Inputs(xs) && IsInput(x) && Inputs(xs + [x])
    ensures AccumulateAll(types, xs + [x]) == Accumulate(types, AccumulateAll(types, xs), x)
  {
    assert (xs + [x])[..|xs|] == xs;
  }

  /** Accumulating a concatenation is combining the two halves, errors included. */
  lemma {:induction false} AppendIsCombine(types: (nat, nat), xs: seq<Input>, ys: seq<Input>)
    requires Inputs(xs) && Inputs(ys) && Inputs(xs + ys)
    ensures Alike(AccumulateAll(types, xs + ys), Combine(AccumulateAll(types, xs), AccumulateAll(types, ys)))
    decreases |ys|
  {
    if ys == [] {
      CombineNothing(types, xs);
      assert xs + ys == xs;
    } else {
      var front, y := ys[..|ys| - 1], ys[|ys| - 1];
      assert ys == front + [y] && xs + ys == (xs + front) + [y];
      AppendIsCombine(types, xs, front);
      AccumulateLast(types, xs + front, y);
      AccumulateLast(types, front, y);
      OneMore(types, AccumulateAll(types, xs + front), AccumulateAll(types, xs), AccumulateAll(types, front), y);
    }
  }

  lemma CombineNothing(types: (nat, nat), xs: seq<Input>)
    requires Inputs(xs)
    ensures Combine(AccumulateAll(types, xs), AccumulateAll(types, [])) == AccumulateAll(types, xs)
  {
  }

  lemma OneMore(types: (nat, nat), whole: Outcome, a: Outcome, b: Outcome, y: Input)
    requires OutcomeOk(whole) && OutcomeOk(a) && OutcomeOk(b) && IsInput(y) && Alike(whole, Combine(a, b))
    ensures OutcomeOk(Accumulate(types, b, y))
    ensures Alike(Accumulate(types, whole, y), Combine(a, Accumulate(types, b, y)))
  {
    CombineOk(a, b);
    AccumulateOk(types, b, y);
    AlikeAccumulate(types, whole, Combine(a, b), y);
    AccumulateAfterCombine(types, a, b, y);
    AlikeTransitive(Accumulate(types, whole, y), Accumulate(types, Combine(a, b), y), Combine(a, Accumulate(types, b, y)));
  }

  lemma AlikeCombine(a: Outcome, a': Outcome, b: Outcome)
    requires OutcomeOk(a) && OutcomeOk(a') && OutcomeOk(b) && Alike(a, a')
    ensures Alike(Combine(a, b), Combine(a', b))
  {
  }

  /** What a worker's state is once it has been sent. */
  function Sent(o: Outcome): Outcome
    requires o.Ok? && o.state.Just? ==> Sendable(o.state.value)
  {
    if o.Ok? && o.state.Just? then Ok(Decoded(Encoded(o.state.value))) else o
  }

  lemma SentIsSame(o: Outcome)
    requires o.Ok? && o.state.Just? ==> Sendable(o.state.value)
    ensures Sent(o) == o
  {
    if o.Ok? && o.state.Just? { RoundTrip(o.state.value); }
  }

  predicate Chunks(chunks: seq<seq<Input>>) { forall i :: 0 <= i < |chunks| ==> Inputs(chunks[i]) }

  /** Each worker's state can be sent. */
  predicate AllSendable(types: (nat, nat), chunks: seq<seq<Input>>)
    requires Chunks(chunks)
  {
    forall i :: 0 <= i < |chunks| ==>
      var o := AccumulateAll(types, chunks[i]);
      o.Ok? && o.state.Just? ==> Sendable(o.state.value)
  }

  /** One worker per chunk; the leader combines their states in order as they arrive. */
  function Parallel(types: (nat, nat), chunks: seq<seq<Input>>): (o: Outcome)
    requires Chunks(chunks) && AllSendable(types, chunks)
    ensures OutcomeOk(o)
  {
    if chunks == [] then Ok(Nothing)
    else
      var n := |chunks| - 1;
      var worker := AccumulateAll(types, chunks[n]);
      SentIsSame(worker);
      CombineOk(Parallel(types, chunks[..n]), worker);
      Combine(Parallel(types, chunks[..n]), Sent(worker))
  }

  function Concat(chunks: seq<seq<Input>>): seq<Input> {
    if chunks == [] then [] else Concat(chunks[..|chunks| - 1]) + chunks[|chunks| - 1]
  }

  lemma {:induction false} ConcatInputs(chunks: seq<seq<Input>>)
    requires Chunks(chunks)
    ensures Inputs(Concat(chunks))
  {
    if chunks != [] { ConcatInputs(chunks[..|chunks| - 1]); }
  }

  /** However the inputs are divided among workers, the combined state is the sequential one. */
  lemma {:induction false} ParallelIsSequential(types: (nat, nat), chunks: seq<seq<Input>>)
    requires Chunks(chunks) && AllSendable(types, chunks) && Inputs(Concat(chunks))
    ensures Alike(Parallel(types, chunks), AccumulateAll(types, Concat(chunks)))
  {
    if chunks != [] {
      var n := |chunks| - 1;
      var front, last := Concat(chunks[..n]), chunks[n];
      ConcatInputs(chunks[..n]);
      ParallelIsSequential(types, chunks[..n]);
      var worker := AccumulateAll(types, last);
      SentIsSame(worker);
      AlikeCombine(Parallel(types, chunks[..n]), AccumulateAll(types, front), worker);
      AppendIsCombine(types, front, last);
      AlikeSymmetric(AccumulateAll(types, front + last), Combine(AccumulateAll(types, front), worker));
      AlikeTransitive(Parallel(types, chunks), Combine(AccumulateAll(types, front), worker), AccumulateAll(types, front + last));
    }
  }

  lemma AlikeSymmetric(a: Outcome, b: Outcome)
    requires Alike(a, b)
    ensures Alike(b, a)
  {
  }

  // ---------------------------------------------------------------------
  // The final array
  // ---------------------------------------------------------------------

  /** A two-dimensional result, row by row. */
  datatype Array2 = Array2(rows: int, cols: int, data: seq<byte>)

  /** makeAgg2dResultArr for a state built from two-dimensional inputs. */
  function Final(s: State): Array2
    requires StateOk(s)
  {
    Array2(s.dims[0] * s.dims[1], s.dims[2], s.data)
  }

  function FlatData(xs: seq<Input>): seq<byte> {
    if xs == [] then [] else FlatData(xs[..|xs| - 1]) + xs[|xs| - 1].data
  }

  predicate Matrices(xs: seq<Input>, r: int, c: int) {
    forall i :: 0 <= i < |xs| ==> IsInput(xs[i]) && xs[i].dims == [r, c] && xs[i].lbs == [1, 1]
  }

  /** The state after matrices of r by c: as many along the first dimension as there were, and their data in turn. */
  predicate StackState(o: Outcome, n: nat, r: int, c: int, data: seq<byte>) {
    && o.Ok? && o.state.Just? && o.state.value.ndims == 3 && o.state.value.data == data
    && o.state.value.dims == [n, r, c, 0, 0, 0] && o.state.value.lbs == [1, 1, 1, 0, 0, 0]
  }

  lemma FirstMatrix(types: (nat, nat), x: Input, r: int, c: int)
    requires IsInput(x) && x.dims == [r, c] && x.lbs == [1, 1]
    ensures StackState(Accumulate(types, Ok(Nothing), x), 1, r, c, x.data)
  {
    assert Padded([1] + x.dims) == [1, r, c, 0, 0, 0] && Padded([1] + x.lbs) == [1, 1, 1, 0, 0, 0];
  }

  lemma NextMatrix(types: (nat, nat), o: Outcome, n: nat, r: int, c: int, data: seq<byte>, x: Input)
    requires IsInput(x) && x.dims == [r, c] && x.lbs == [1, 1] && OutcomeOk(o) && StackState(o, n, r, c, data)
    ensures StackState(Accumulate(types, o, x), n + 1, r, c, data + x.data)
  {
    assert Padded([1] + x.dims) == [1, r, c, 0, 0, 0] && Padded([1] + x.lbs) == [1, 1, 1, 0, 0, 0];
  }

  lemma {:induction false} MatricesStack(types: (nat, nat), xs: seq<Input>, r: int, c: int)
    requires xs != [] && Matrices(xs, r, c) && Inputs(xs)
    ensures StackState(AccumulateAll(types, xs), |xs|, r, c, FlatData(xs))
  {
    var n := |xs| - 1;
    if n > 0 {
      MatricesStack(types, xs[..n], r, c);
      NextMatrix(types, AccumulateAll(types, xs[..n]), n, r, c, FlatData(xs[..n]), xs[n]);
    } else {
      assert xs[..0] == [];
      FirstMatrix(types, xs[n], r, c);
      assert FlatData(xs) == [] + xs[n].data == xs[n].data;
    }
  }

  /** Stacking n matrices of r by c gives an array of n * r by c, in row-major order of the inputs. */
  lemma FinalIsStack(types: (nat, nat), xs: seq<Input>, r: int, c: int)
    requires xs != [] && Matrices(xs, r, c) && Inputs(xs)
    ensures var o := AccumulateAll(types, xs);
      && o.Ok? && o.state.Just? && StateOk(o.state.value) && Final(o.state.value) == Array2(|xs| * r, c, FlatData(xs))
  {
    MatricesStack(types, xs, r, c);
  }

  /** Workers or not, the final array is the same. */
  lemma AlikeFinal(a: Outcome, b: Outcome)
    requires OutcomeOk(a) && OutcomeOk(b) && Alike(a, b) && a.Ok? && a.state.Just?
    ensures b.Ok? && b.state.Just? && Final(a.state.value) == Final(b.state.value)
  {
  }

  /** The parallel aggregate of matrices is their stack. */
  lemma ParallelStack(types: (nat, nat), chunks: seq<seq<Input>>, r: int, c: int)
    requires Chunks(chunks) && AllSendable(types, chunks) && Concat(chunks) != [] && Matrices(Concat(chunks), r, c)
    ensures var o := Parallel(types, chunks);
      && o.Ok? && o.state.Just?
      && Final(o.state.value) == Array2(|Concat(chunks)| * r, c, FlatData(Concat(chunks)))
  {
    ConcatInputs(chunks);
    ParallelIsSequential(types, chunks);
    FinalIsStack(types, Concat(chunks), r, c);
    var o := AccumulateAll(types, Concat(chunks));
    AlikeSymmetric(Parallel(types, chunks), o);
    AlikeFinal(o, Parallel(types, chunks));
  }

  // ---------------------------------------------------------------------
  // Elements of the final array
  // ---------------------------------------------------------------------

  /** Where an element of `w` bytes begins in an array of `c` columns. */
  function Offset(c: nat, w: nat, row: nat, col: nat): nat { (row * c + col) * w }

  /** Row `row` of the i-th of several matrices of r rows. */
  function RowOf(i: nat, r: nat, row: nat): nat { i * r + row }

  lemma OffsetShifts(r: nat, c: nat, w: nat, i: nat, row: nat, col: nat)
    ensures Offset(c, w, RowOf(i, r, row), col) == i * (r * c * w) + Offset(c, w, row, col)
  {
    assert (i * r + row) * c + col == i * (r * c) + (row * c + col) by { Distribute(i * r, row, c); Associate(i, r, c); }
    Distribute(i * (r * c), row * c + col, w);
    Associate(i, r * c, w);
  }

  lemma Distribute(x: nat, y: nat, z: nat)
    ensures (x + y) * z == x * z + y * z
  {
  }

  lemma Associate(x: nat, y: nat, z: nat)
    ensures (x * y) * z == x * (y * z)
  {
  }

  lemma Monotone(x: nat, y: nat, z: nat)
    requires x < y
    ensures x * z + z <= y * z
  {
    Distribute(x, 1, z);
    Distribute(x + 1, y - (x + 1), z);
  }

  lemma OffsetBound(r: nat, c: nat, w: nat, row: nat, col: nat, k: nat)
    requires row < r && col < c && k < w
    ensures Offset(c, w, row, col) + k < r * c * w
  {
    Monotone(row, r, c);
    Monotone(row * c + col, r * c, w);
  }

  predicate SameSize(xs: seq<Input>, n: nat) { forall i :: 0 <= i < |xs| ==> |xs[i].data| == n }

  lemma {:induction false} FlatLength(xs: seq<Input>, n: nat)
    requires SameSize(xs, n)
    ensures |FlatData(xs)| == |xs| * n
  {
    if xs != [] {
      FlatLength(xs[..|xs| - 1], n);
      Distribute(|xs| - 1, 1, n);
    }
  }

  lemma {:induction false} FlatAt(xs: seq<Input>, i: nat, k: nat)
    requires i < |xs| && k < |xs[i].data|
    ensures var at := |FlatData(xs[..i])| + k; at < |FlatData(xs)| && FlatData(xs)[at] == xs[i].data[k]
  {
    var m := |xs| - 1;
    if i < m {
      FlatAt(xs[..m], i, k);
      assert xs[..m][..i] == xs[..i];
    }
  }

  /** The k-th byte of one element of an array is that of another element of another array. */
  predicate SameByte(f: seq<byte>, at: nat, x: seq<byte>, from: nat, k: nat) {
    at + k < |f| && from + k < |x| && f[at + k] == x[from + k]
  }

  lemma FlatByte(xs: seq<Input>, i: nat, at: nat, from: nat, k: nat)
    requires i < |xs| && from + k < |xs[i].data| && at == |FlatData(xs[..i])| + from
    ensures SameByte(FlatData(xs), at, xs[i].data, from, k)
  {
    FlatAt(xs, i, from + k);
  }

  lemma ElementStart(xs: seq<Input>, r: nat, c: nat, w: nat, i: nat, row: nat, col: nat)
    requires SameSize(xs, r * c * w) && i < |xs|
    ensures Offset(c, w, RowOf(i, r, row), col) == |FlatData(xs[..i])| + Offset(c, w, row, col)
  {
    OffsetShifts(r, c, w, i, row, col);
    FlatLength(xs[..i], r * c * w);
  }

  lemma ElementInside(xs: seq<Input>, r: nat, c: nat, w: nat, i: nat, row: nat, col: nat, k: nat)
    requires SameSize(xs, r * c * w) && i < |xs| && row < r && col < c && k < w
    ensures Offset(c, w, row, col) + k < |xs[i].data|
  {
    OffsetBound(r, c, w, row, col, k);
  }

  /**
   The element in row i * r + row of the final array is the element in the same column and
   in row `row` of input i, byte by byte.
   */
  lemma FinalElement(types: (nat, nat), xs: seq<Input>, r: nat, c: nat, w: nat, i: nat, row: nat, col: nat, k: nat)
    requires Matrices(xs, r, c) && Inputs(xs) && SameSize(xs, r * c * w)
    requires i < |xs| && row < r && col < c && k < w
    ensures var o := AccumulateAll(types, xs);
      && o.Ok? && o.state.Just? && StateOk(o.state.value)
      && var f := Final(o.state.value);
         && f.rows == RowOf(|xs|, r, 0) && f.cols == c
         && SameByte(f.data, Offset(c, w, RowOf(i, r, row), col), xs[i].data, Offset(c, w, row, col), k)
  {
    FinalIsStack(types, xs, r, c);
    ElementStart(xs, r, c, w, i, row, col);
    ElementInside(xs, r, c, w, i, row, col, k);
    FlatByte(xs, i, Offset(c, w, RowOf(i, r, row), col), Offset(c, w, row, col), k);
  }

  // ---------------------------------------------------------------------
  // Buffers
  // ---------------------------------------------------------------------

  /** What deserialization allocates for n bytes; the size it records is the sender's. */
  function Received(n: nat): (a: nat)
    ensures a >= n && a >= 1024
  {
    DoubledIsMore(1024, n);
    DoubleUntil(1024, n)
  }

  lemma {:induction false} DoubledIsMore(p: nat, n: nat)
    requires p > 0
    ensures DoubleUntil(p, n) >= p
    decreases n - p
  {
    if p < n { DoubledIsMore(2 * p, n); }
  }

  /** A state and the number of bytes its buffer really has. */
  datatype Held = Held(state: State, alloc: nat)

  /** Room for whatever the recorded size promises. */
  predicate Roomy(h: Held) { h.state.abytes <= h.alloc }

  /** The buffer after one more input. */
  function AccumulateAlloc(h: Maybe<Held>, x: Input): nat {
    if h.Nothing? then NextPower2(Max(1024, |x.data| + 1))
    else
      var s := h.value.state;
      var need := |s.data| + |x.data|;
      if need > s.abytes then Max(2 * s.abytes, need) else h.value.alloc
  }

  /** The buffer of a combination: a first state is copied into one of the size it records. */
  function CombineAlloc(a: Maybe<Held>, t: State): nat {
    if a.Nothing? then t.abytes
    else
      var s := a.value.state;
      var need := |s.data| + |t.data|;
      if s.abytes < need then NextPower2(need) else a.value.alloc
  }

  function Known(h: Maybe<Held>): Outcome { Ok(if h.Nothing? then Nothing else Just(h.value.state)) }

  predicate Settled(h: Maybe<Held>) { h.Just? ==> StateOk(h.value.state) && Roomy(h.value) }

  /** An input is written inside the buffer of a roomy state, and leaves a roomy one. */
  lemma AccumulateStaysWithin(types: (nat, nat), h: Maybe<Held>, x: Input)
    requires Settled(h) && IsInput(x) && OutcomeOk(Known(h)) && Accumulate(types, Known(h), x).Ok?
    ensures var s := Accumulate(types, Known(h), x).state.value;
      |s.data| <= AccumulateAlloc(h, x) && Settled(Just(Held(s, AccumulateAlloc(h, x))))
  {
    AccumulateOk(types, Known(h), x);
  }

  /** So is a combination, whatever buffer the state combined with has. */
  lemma CombineStaysWithin(a: Maybe<Held>, t: State)
    requires Settled(a) && StateOk(t) && OutcomeOk(Known(a)) && Combine(Known(a), Ok(Just(t))).Ok?
    ensures var s := Combine(Known(a), Ok(Just(t))).state.value;
      |s.data| <= CombineAlloc(a, t) && Settled(Just(Held(s, CombineAlloc(a, t))))
  {
    CombineOk(Known(a), Ok(Just(t)));
  }

  /** The leader's state and buffer, or Nothing after an error or without inputs. */
  function Leader(types: (nat, nat), chunks: seq<seq<Input>>): (h: Maybe<Held>)
    requires Chunks(chunks) && AllSendable(types, chunks)
    ensures h.Just? ==> Parallel(types, chunks) == Known(h)
    ensures h.Nothing? ==> Parallel(types, chunks) in {Error, Ok(Nothing)}
  {
    if chunks == [] then Nothing
    else
      var n := |chunks| - 1;
      var a, worker := Leader(types, chunks[..n]), AccumulateAll(types, chunks[n]);
      SentIsSame(worker);
      match Parallel(types, chunks)
      case Error => Nothing
      case Ok(Nothing) => Nothing
      case Ok(Just(s)) =>
        if worker == Ok(Nothing) then a else Just(Held(s, CombineAlloc(a, Sent(worker).state.value)))
  }

  /** In the parallel aggregate no combination writes past the leader's buffer, over any division of the inputs. */
  lemma {:induction false} LeaderStaysWithin(types: (nat, nat), chunks: seq<seq<Input>>)
    requires Chunks(chunks) && AllSendable(types, chunks)
    ensures Settled(Leader(types, chunks))
    ensures var h := Leader(types, chunks); h.Just? ==> |h.value.state.data| <= h.value.alloc
    decreases |chunks|
  {
    if chunks != [] {
      var n := |chunks| - 1;
      LeaderStaysWithin(types, chunks[..n]);
      var a, worker := Leader(types, chunks[..n]), AccumulateAll(types, chunks[n]);
      SentIsSame(worker);
      if worker.Ok? && worker.state.Just? && Parallel(types, chunks).Ok? { CombineStaysWithin(a, worker.state.value); }
    }
  }

  // -- received states by themselves --

  function Lengths(xs: seq<Input>): (ns: seq<nat>)
    ensures |ns| == |xs| && forall i :: 0 <= i < |xs| ==> ns[i] == |xs[i].data|
  {
    seq(|xs|, i requires 0 <= i < |xs| => |xs[i].data|)
  }

  function Total(ns: seq<nat>): nat { if ns == [] then 0 else Total(ns[..|ns| - 1]) + ns[|ns| - 1] }

  /** The buffer size a worker records after inputs of these lengths. */
  function Recorded(ns: seq<nat>): nat {
    if ns == [] then 0
    else
      var front, n := ns[..|ns| - 1], ns[|ns| - 1];
      if front == [] then NextPower2(Max(1024, n + 1))
      else if Total(front) + n > Recorded(front) then Max(2 * Recorded(front), Total(front) + n)
      else Recorded(front)
  }

  lemma {:induction false} RecordedIs(types: (nat, nat), xs: seq<Input>)
    requires Inputs(xs) && AccumulateAll(types, xs).Ok?
    ensures var o := AccumulateAll(types, xs);
      && (o.state.Just? <==> xs != [])
      && (xs != [] ==> o.state.value.abytes == Recorded(Lengths(xs)) && |o.state.value.data| == Total(Lengths(xs)))
  {
    if xs != [] {
      var n := |xs| - 1;
      RecordedIs(types, xs[..n]);
      assert Lengths(xs)[..n] == Lengths(xs[..n]);
    }
  }

  /** Whether a worker's state arrives with the room it records depends on the lengths of its inputs alone. */
  lemma ReceivedRoomyIff(types: (nat, nat), xs: seq<Input>)
    requires Inputs(xs) && AccumulateAll(types, xs).Ok? && AccumulateAll(types, xs).state.Just?
    ensures var s := AccumulateAll(types, xs).state.value;
      Roomy(Held(s, Received(|s.data|))) <==> Recorded(Lengths(xs)) <= Received(Total(Lengths(xs)))
  {
    RecordedIs(types, xs);
  }

  /** Doubling from a smaller power reaches the same one. */
  lemma DoubleFrom1024(n: nat)
    requires n >= 1024
    ensures NextPower2(n) == DoubleUntil(1024, n)
  {
    assert DoubleUntil(1, n) == DoubleUntil(2, n) == DoubleUntil(4, n) == DoubleUntil(8, n);
    assert DoubleUntil(8, n) == DoubleUntil(16, n) == DoubleUntil(32, n) == DoubleUntil(64, n);
    assert n > 512 && DoubleUntil(64, n) == DoubleUntil(128, n) == DoubleUntil(256, n) == DoubleUntil(512, n);
    assert DoubleUntil(512, n) == DoubleUntil(1024, n);
  }

  /** One more byte asks for the next power exactly when the last one was used up. */
  lemma {:induction false} DoubleNext(p: nat, n: nat)
    requires p > 0
    ensures DoubleUntil(p, n + 1) <= DoubleUntil(p, n) <==> DoubleUntil(p, n) != n
    decreases n - p
  {
    if p < n {
      DoubleNext(2 * p, n);
    }
  }

  function Pow2(k: nat): nat { if k == 0 then 1 else 2 * Pow2(k - 1) }

  lemma {:induction false} DoubleHits(p: nat, n: nat)
    requires p > 0
    ensures DoubleUntil(p, n) == n ==> exists k: nat :: n == p * Pow2(k)
    decreases n - p
  {
    if p == n {
      assert n == p * Pow2(0);
    } else if p < n && DoubleUntil(p, n) == n {
      DoubleHits(2 * p, n);
      var k: nat :| n == 2 * p * Pow2(k);
      assert n == p * Pow2(k + 1);
    }
  }

  lemma {:induction false} PowerIsHit(p: nat, k: nat)
    requires p > 0
    ensures p * Pow2(k) >= p && DoubleUntil(p, p * Pow2(k)) == p * Pow2(k)
    decreases k
  {
    if k > 0 {
      PowerIsHit(2 * p, k - 1);
      assert 2 * p * Pow2(k - 1) == p * Pow2(k);
    }
  }

  /** After one input the state is short exactly when the input's length is 1024 times a power of two. */
  lemma OneInputIsShortIff(types: (nat, nat), x: Input)
    requires IsInput(x) && Inputs([x]) && AccumulateAll(types, [x]).Ok?
    ensures var o := AccumulateAll(types, [x]);
      && o.state.Just?
      && (!Roomy(Held(o.state.value, Received(|o.state.value.data|))) <==> exists k: nat :: |x.data| == 1024 * Pow2(k))
  {
    var n := |x.data|;
    RecordedIs(types, [x]);
    assert Lengths([x]) == [n] && [n][..0] == [];
    assert Total([n]) == n && Recorded([n]) == NextPower2(Max(1024, n + 1));
    DoubleFrom1024(Max(1024, n + 1));
    DoubleNext(1024, n);
    DoubleHits(1024, n);
    if k: nat :| n == 1024 * Pow2(k) { PowerIsHit(1024, k); }
  }

  /** Several inputs can leave other sizes short: after 100, 3000 and 100 bytes 6200 are recorded and 4096 allocated. */
  lemma ThreeInputsAreShort()
    ensures Recorded([100, 3000, 100]) == 6200 && Total([100, 3000, 100]) == 3200 && Received(3200) == 4096
  {
    assert [100, 3000, 100][..2] == [100, 3000] && [100, 3000][..1] == [100] && [100][..0] == [];
    assert Total([100]) == 100 && Total([100, 3000]) == 3100;
    DoubleFrom1024(1024);
    assert Recorded([100]) == 1024 && Recorded([100, 3000]) == 3100;
    assert DoubleUntil(1024, 3200) == DoubleUntil(2048, 3200) == DoubleUntil(4096, 3200);
  }
}
