/**
 Bloom signatures: the Park-Miller generator that picks bit positions, the
 signature a row gets from its columns, and the signature a search asks for.
 */
module BloomSignatures {

  const INT32_MIN := -0x8000_0000
  const INT32_MAX := 0x7fff_ffff
  const MODULUS := 0x7fff_ffff
  const SIGNWORDBITS := 16

  predicate Int32(x: int) { INT32_MIN <= x <= INT32_MAX }

  /** C division and remainder: truncation toward zero. */
  function TDiv(a: int, b: int): int
    requires b > 0
  {
    if a >= 0 then a / b else -((-a) / b)
  }

  function TMod(a: int, b: int): int
    requires b > 0
  {
    a - b * TDiv(a, b)
  }

  // ---------------------------------------------------------------------
  // The generator
  // ---------------------------------------------------------------------

  /** myRand's update of `next`. */
  function Advance(x: int): int {
    var v := 16807 * TMod(x, 127773) - 2836 * TDiv(x, 127773);
    if v < 0 then v + 0x7fff_ffff else v
  }

  /** mySrand: the seed is read as a signed number and reduced with C's signed remainder. */
  function Seeded(seed: int): int
    requires 0 <= seed < 0x1_0000_0000
  {
    var s := if seed <= INT32_MAX then seed else seed - 0x1_0000_0000;
    TMod(s, 0x7fff_fffe) + 1
  }

  /** The states a seed can leave behind, apart from zero: negative ones included. */
  predicate Seedable(x: int) {
    -0x7fff_fffc <= x <= 0x7fff_fffe && x != 0
  }

  /** The two seeds that leave the generator stuck at zero. */
  predicate BadSeed(seed: int) {
    seed == 0xffff_ffff || seed == 0x8000_0001
  }

  lemma DivisionSplits(x: int)
    requires -0x7fff_fffc <= x <= 0x7fff_fffe
    ensures var hi, lo := TDiv(x, 127773), TMod(x, 127773);
      && x == 127773 * hi + lo
      && -16807 <= hi <= 16807 && -127772 <= lo <= 127772
      && (x >= 0 ==> hi >= 0 && lo >= 0) && (x <= 0 ==> hi <= 0 && lo <= 0)
      && (hi == 16807 ==> lo <= 2835) && (hi == -16807 ==> lo >= -2835)
  {
  }

  /** 16807 and 2836 have no common factor, so the two terms cancel only when both are zero. */
  lemma NoCancellation(hi: int, lo: int)
    requires 16807 * lo == 2836 * hi && -16807 <= hi <= 16807
    requires (hi == 16807 ==> lo <= 2835) && (hi == -16807 ==> lo >= -2835)
    ensures hi == 0 && lo == 0
  {
    // 2836 * 5790 == 1 + 16807 * 977, so hi is a multiple of 16807
    var k := 5790 * lo - 977 * hi;
    assert hi == 16807 * k;
  }

  lemma ModUnique(a: int, q: int, r: int)
    requires a == MODULUS * q + r && 0 <= r < MODULUS
    ensures a % MODULUS == r
  {
  }

  /**
   One step multiplies by 16807 modulo 2^31 - 1, stays inside 32-bit arithmetic
   throughout, and lands in [1, 2^31 - 2] from every non-zero seeded state.
   */
  lemma AdvanceIsParkMiller(x: int)
    requires Seedable(x)
    ensures Int32(16807 * TMod(x, 127773)) && Int32(2836 * TDiv(x, 127773))
    ensures Int32(16807 * TMod(x, 127773) - 2836 * TDiv(x, 127773))
    ensures 1 <= Advance(x) <= 0x7fff_fffe
    ensures Advance(x) == (16807 * x) % MODULUS
  {
    DivisionSplits(x);
    var hi, lo := TDiv(x, 127773), TMod(x, 127773);
    var v := 16807 * lo - 2836 * hi;
    if v == 0 { NoCancellation(hi, lo); }
    assert 16807 * x == MODULUS * hi + v;
    if v < 0 { ModUnique(16807 * x, hi - 1, v + MODULUS); } else { ModUnique(16807 * x, hi, v); }
  }

  /** A seed leaves a usable state unless it is one of the two bad ones, which leave zero for good. */
  lemma SeededIsUsable(seed: int)
    requires 0 <= seed < 0x1_0000_0000
    ensures Seedable(Seeded(seed)) <==> !BadSeed(seed)
    ensures BadSeed(seed) ==> Seeded(seed) == 0 && Advance(0) == 0
  {
  }

  // ---------------------------------------------------------------------
  // Bit positions
  // ---------------------------------------------------------------------

  /** The next `n` positions below `m`, from generator state `x`. */
  function Positions(x: int, n: nat, m: int): seq<int>
    requires m > 0
    decreases n
  {
    if n == 0 then [] else [TMod(Advance(x) - 1, m)] + Positions(Advance(x), n - 1, m)
  }

  /** hashVal ^ myRand(), as unsigned 32-bit words. */
  function Xor32(a: bv32, b: int): int
    requires 0 <= b < 0x1_0000_0000
  {
    (a ^ (b as bv32)) as int
  }

  /** The seed of a value's bit sequence: its hash mixed with the column number. */
  function ValueSeed(hash: bv32, attno: nat): (s: int)
    requires attno < 32
    ensures 0 <= s < 0x1_0000_0000
  {
    ColumnRand(attno);
    Xor32(hash, Advance(Seeded(attno)) - 1)
  }

  lemma ColumnRand(attno: nat)
    requires attno < 32
    ensures 0 <= Advance(Seeded(attno)) - 1 < 0x1_0000_0000
  {
    SeededIsUsable(attno);
    AdvanceIsParkMiller(Seeded(attno));
  }

  /** The positions signValue sets for a value: they depend on its hash and column alone. */
  function ValueBits(hash: bv32, attno: nat, bitSize: nat, words: nat): seq<int>
    requires attno < 32 && words > 0
  {
    Positions(Seeded(ValueSeed(hash, attno)), bitSize, words * SIGNWORDBITS)
  }

  predicate InRange(bits: seq<int>, m: int) {
    forall i :: 0 <= i < |bits| ==> 0 <= bits[i] < m
  }

  lemma {:induction false} PositionsInRange(x: int, n: nat, m: int)
    requires Seedable(x) && m > 0
    ensures |Positions(x, n, m)| == n && InRange(Positions(x, n, m), m)
    decreases n
  {
    if n > 0 {
      AdvanceIsParkMiller(x);
      TModBounds(Advance(x) - 1, m);
      PositionsInRange(Advance(x), n - 1, m);
    }
  }

  lemma TModBounds(a: int, m: int)
    requires a >= 0 && m > 0
    ensures 0 <= TMod(a, m) < m
  {
    assert TMod(a, m) == a % m;
  }

  /** From state zero the first position is -1, before the signature's first word. */
  lemma StuckPosition(n: nat, m: int)
    requires n > 0 && m > 1
    ensures |Positions(0, n, m)| > 0 && Positions(0, n, m)[0] == -1
  {
    assert Advance(0) == 0;
    MinusOneMod(m);
    assert Positions(0, n, m) == [TMod(-1, m)] + Positions(0, n - 1, m);
  }

  lemma SmallQuotient(m: int)
    requires m > 1
    ensures 1 / m == 0
  {
  }

  lemma MinusOneMod(m: int)
    requires m > 1
    ensures TMod(-1, m) == -1
  {
    SmallQuotient(m);
    assert TDiv(-1, m) == 0;
    assert m * 0 == 0;
  }

  /** All positions lie inside the signature exactly when the mixed seed is not one of the two bad ones. */
  lemma BitsInRangeIff(hash: bv32, attno: nat, bitSize: nat, words: nat)
    requires attno < 32 && words > 0 && bitSize > 0
    ensures InRange(ValueBits(hash, attno, bitSize, words), words * SIGNWORDBITS) <==> !BadSeed(ValueSeed(hash, attno))
  {
    var seed := ValueSeed(hash, attno);
    SeededIsUsable(seed);
    if BadSeed(seed) {
      StuckPosition(bitSize, words * SIGNWORDBITS);
    } else {
      PositionsInRange(Seeded(seed), bitSize, words * SIGNWORDBITS);
    }
  }

  lemma XorTwice(a: bv32, b: bv32)
    ensures (a ^ b) ^ b == a
  {
  }

  /** In every column some hash value hits a bad seed, and its first bit falls before the signature. */
  lemma BadHash(attno: nat, bitSize: nat, words: nat) returns (hash: bv32)
    requires attno < 32 && words > 0 && bitSize > 0
    ensures BadSeed(ValueSeed(hash, attno)) && !InRange(ValueBits(hash, attno, bitSize, words), words * SIGNWORDBITS)
  {
    ColumnRand(attno);
    var r := (Advance(Seeded(attno)) - 1) as bv32;
    hash := 0xffff_ffff ^ r;
    XorTwice(0xffff_ffff, r);
    BitsInRangeIff(hash, attno, bitSize, words);
  }

  // ---------------------------------------------------------------------
  // Signatures
  // ---------------------------------------------------------------------

  type Sign = seq<bv16>

  function Mask(b: int): bv16
    requires b >= 0
  {
    (1 as bv16) << (b % SIGNWORDBITS)
  }

  function SetBit(s: Sign, b: int): Sign
    requires 0 <= b < |s| * SIGNWORDBITS
  {
    s[b / SIGNWORDBITS := s[b / SIGNWORDBITS] | Mask(b)]
  }

  predicate HasBit(s: Sign, b: int) {
    0 <= b < |s| * SIGNWORDBITS && s[b / SIGNWORDBITS] & Mask(b) == Mask(b)
  }

  function SetBits(s: Sign, bits: seq<int>): (r: Sign)
    requires InRange(bits, |s| * SIGNWORDBITS)
    ensures |r| == |s|
    decreases |bits|
  {
    if bits == [] then s else SetBits(SetBit(s, bits[0]), bits[1..])
  }

  /** The word-by-word test of the scan: every bit of `q` is set in `s`. */
  predicate Matches(s: Sign, q: Sign) {
    |s| == |q| && forall i :: 0 <= i < |s| ==> s[i] & q[i] == q[i]
  }

  lemma OrKeeps(w: bv16, m: bv16, n: bv16)
    ensures w & m == m ==> (w | n) & m == m
  {
  }

  lemma OrSets(w: bv16, m: bv16)
    ensures (w | m) & m == m
  {
  }

  lemma AndOr(w: bv16, m: bv16, n: bv16)
    ensures w & m == m && w & n == n ==> w & (m | n) == m | n
  {
  }

  lemma WordInRange(b: int, n: nat)
    requires 0 <= b < n * SIGNWORDBITS
    ensures 0 <= b / SIGNWORDBITS < n
  {
  }

  lemma SetBitSets(s: Sign, b: int)
    requires 0 <= b < |s| * SIGNWORDBITS
    ensures HasBit(SetBit(s, b), b)
  {
    WordInRange(b, |s|);
    OrSets(s[b / SIGNWORDBITS], Mask(b));
  }

  lemma SetBitKeeps(s: Sign, b: int, c: int)
    requires 0 <= b < |s| * SIGNWORDBITS && HasBit(s, c)
    ensures HasBit(SetBit(s, b), c)
  {
    WordInRange(b, |s|);
    WordInRange(c, |s|);
    OrKeeps(s[b / SIGNWORDBITS], Mask(c), Mask(b));
  }

  lemma {:induction false} SetBitsKeeps(s: Sign, bits: seq<int>, c: int)
    requires InRange(bits, |s| * SIGNWORDBITS)
    ensures HasBit(s, c) || c in bits ==> HasBit(SetBits(s, bits), c)
    decreases |bits|
  {
    if bits != [] {
      SetBitSets(s, bits[0]);
      if HasBit(s, c) { SetBitKeeps(s, bits[0], c); }
      SetBitsKeeps(SetBit(s, bits[0]), bits[1..], c);
      assert c in bits ==> c == bits[0] || c in bits[1..];
    }
  }

  lemma {:induction false} SetBitsMatch(s: Sign, q: Sign, bits: seq<int>)
    requires Matches(s, q) && InRange(bits, |q| * SIGNWORDBITS)
    requires forall c :: c in bits ==> HasBit(s, c)
    ensures Matches(s, SetBits(q, bits))
    decreases |bits|
  {
    if bits != [] {
      var b := bits[0];
      assert b in bits && HasBit(s, b);
      AndOr(s[b / SIGNWORDBITS], q[b / SIGNWORDBITS], Mask(b));
      assert forall c :: c in bits[1..] ==> c in bits;
      SetBitsMatch(s, SetBit(q, b), bits[1..]);
    }
  }

  // ---------------------------------------------------------------------
  // Rows and searches
  // ---------------------------------------------------------------------

  datatype Column = Null | Hash(h: bv32)

  /** Index options: bits per column and signature length in words. */
  datatype Options = Options(bitSize: seq<nat>, words: nat)

  predicate ValidOptions(o: Options) {
    0 < |o.bitSize| <= 32 && o.words > 0 && forall i :: 0 <= i < |o.bitSize| ==> o.bitSize[i] > 0
  }

  /** No column value hits one of the two bad seeds. */
  predicate Signable(o: Options, attno: nat, h: bv32) {
    attno < |o.bitSize| && attno < 32 && !BadSeed(ValueSeed(h, attno))
  }

  /** Signing one value. */
  function Sign1(o: Options, s: Sign, attno: nat, h: bv32): (r: Sign)
    requires ValidOptions(o) && |s| == o.words && Signable(o, attno, h)
    ensures |r| == |s|
  {
    BitsInRangeIff(h, attno, o.bitSize[attno], o.words);
    SetBits(s, ValueBits(h, attno, o.bitSize[attno], o.words))
  }

  function Zero(words: nat): (s: Sign)
    ensures |s| == words
  {
    seq(words, _ => 0)
  }

  predicate SignableTo(o: Options, row: seq<Column>, n: nat) {
    n <= |row| == |o.bitSize| && forall i :: 0 <= i < n && row[i].Hash? ==> Signable(o, i, row[i].h)
  }

  predicate SignableRow(o: Options, row: seq<Column>) {
    SignableTo(o, row, |row|)
  }

  /** BloomFormTuple's signature: the first n columns, nulls skipped. */
  function RowSign(o: Options, row: seq<Column>, n: nat): (r: Sign)
    requires ValidOptions(o) && SignableTo(o, row, n)
    ensures |r| == o.words
  {
    if n == 0 then Zero(o.words)
    else match row[n - 1]
      case Null => RowSign(o, row, n - 1)
      case Hash(h) => Sign1(o, RowSign(o, row, n - 1), n - 1, h)
  }

  datatype ScanKey = ScanKey(attno: nat, arg: Column)

  predicate SignableKeys(o: Options, keys: seq<ScanKey>) {
    forall i :: 0 <= i < |keys| ==> keys[i].arg.Hash? && Signable(o, keys[i].attno, keys[i].arg.h)
  }

  /** The search signature of the first n keys. */
  function KeySign(o: Options, keys: seq<ScanKey>, n: nat): (r: Sign)
    requires ValidOptions(o) && SignableKeys(o, keys) && n <= |keys|
    ensures |r| == o.words
  {
    if n == 0 then Zero(o.words) else Sign1(o, KeySign(o, keys, n - 1), keys[n - 1].attno, keys[n - 1].arg.h)
  }

  /** Each key asks for the value its column holds. */
  predicate KeysAgree(row: seq<Column>, keys: seq<ScanKey>) {
    forall i :: 0 <= i < |keys| ==> keys[i].attno < |row| && keys[i].arg.Hash? && row[keys[i].attno] == keys[i].arg
  }

  lemma {:induction false} RowHasColumnBits(o: Options, row: seq<Column>, n: nat, i: nat, b: int)
    requires ValidOptions(o) && SignableRow(o, row) && n <= |row| && i < n && row[i].Hash?
    requires b in ValueBits(row[i].h, i, o.bitSize[i], o.words)
    ensures HasBit(RowSign(o, row, n), b)
  {
    if i < n - 1 { RowHasColumnBits(o, row, n - 1, i, b); }
    if row[n - 1].Hash? { Sign1Keeps(o, RowSign(o, row, n - 1), n - 1, row[n - 1].h, b); }
  }

  lemma Sign1Keeps(o: Options, s: Sign, attno: nat, h: bv32, b: int)
    requires ValidOptions(o) && |s| == o.words && attno < |o.bitSize|
    ensures Signable(o, attno, h) ==>
      HasBit(s, b) || b in ValueBits(h, attno, o.bitSize[attno], o.words) ==> HasBit(Sign1(o, s, attno, h), b)
  {
    if Signable(o, attno, h) {
      BitsInRangeIff(h, attno, o.bitSize[attno], o.words);
      SetBitsKeeps(s, ValueBits(h, attno, o.bitSize[attno], o.words), b);
    }
  }

  lemma KeyMatchesRow(o: Options, row: seq<Column>, s: Sign, q: Sign, k: ScanKey)
    requires ValidOptions(o) && SignableRow(o, row) && s == RowSign(o, row, |row|)
    requires |q| == o.words && Matches(s, q)
    requires k.arg.Hash? && Signable(o, k.attno, k.arg.h) && k.attno < |row| && row[k.attno] == k.arg
    ensures Matches(s, Sign1(o, q, k.attno, k.arg.h))
  {
    var bits := ValueBits(k.arg.h, k.attno, o.bitSize[k.attno], o.words);
    BitsInRangeIff(k.arg.h, k.attno, o.bitSize[k.attno], o.words);
    forall b | b in bits ensures HasBit(s, b) {
      RowHasColumnBits(o, row, |row|, k.attno, b);
    }
    SetBitsMatch(s, q, bits);
  }

  /** A search that asks for the values a row holds always matches the row's signature. */
  lemma {:induction false} KeysMatchRow(o: Options, row: seq<Column>, keys: seq<ScanKey>, n: nat)
    requires ValidOptions(o) && SignableRow(o, row) && SignableKeys(o, keys) && KeysAgree(row, keys) && n <= |keys|
    ensures Matches(RowSign(o, row, |row|), KeySign(o, keys, n))
  {
    var s := RowSign(o, row, |row|);
    if n == 0 {
      ZeroMatches(s);
    } else {
      KeysMatchRow(o, row, keys, n - 1);
      KeyMatchesRow(o, row, s, KeySign(o, keys, n - 1), keys[n - 1]);
    }
  }

  lemma ZeroMatches(s: Sign)
    ensures Matches(s, Zero(|s|))
  {
    forall i | 0 <= i < |s| ensures s[i] & Zero(|s|)[i] == Zero(|s|)[i] {
      AndZero(s[i]);
    }
  }

  lemma AndZero(w: bv16)
    ensures w & 0 == 0
  {
  }
}
