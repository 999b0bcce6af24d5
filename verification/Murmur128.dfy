/** MurmurHash3_x64_128: a fold of invertible steps over pairs of words. */
module Murmur128 {
  import opened HashKeys

  // ----- the operations on words, each with its inverse; Raw lemmas show one side written out

  function Rotl27(x: bv64): (y: bv64) { (x << 27) | (x >> 37) }

  function Rotl31(x: bv64): (y: bv64) { (x << 31) | (x >> 33) }

  function Rotl33(x: bv64): (y: bv64) { (x << 33) | (x >> 31) }

  function Rotl37(x: bv64): (y: bv64) { (x << 37) | (x >> 27) }

  lemma Rotations(x: bv64)
    ensures Rotl37(Rotl27(x)) == x && Rotl27(Rotl37(x)) == x
    ensures Rotl33(Rotl31(x)) == x && Rotl31(Rotl33(x)) == x
  {
  }

  function Xor(a: bv64, b: bv64): (r: bv64) { a ^ b }

  function Add(a: bv64, b: bv64): (r: bv64) { a + b }

  function Sub(a: bv64, b: bv64): (r: bv64) { a - b }

  lemma XorXor(a: bv64, b: bv64)
    ensures Xor(Xor(a, b), b) == a && Xor(a, Xor(a, b)) == b
  {
  }

  lemma AddSub(a: bv64, b: bv64)
    ensures Sub(Add(a, b), b) == a && Sub(Add(a, b), a) == b && Add(Sub(a, b), b) == a && Add(b, Sub(a, b)) == a
  {
    hide Add, Sub;
    AddThenSub(a, b);
    SubThenAdd(a, b);
  }

  lemma RawSum(a: bv64, b: bv64)
    ensures Sub(a + b, b) == a && Sub(a + b, a) == b
  {
  }

  lemma RawDifference(a: bv64, b: bv64)
    ensures Add(a - b, b) == a && Add(b, a - b) == a
  {
  }

  lemma AddThenSub(a: bv64, b: bv64)
    ensures Sub(Add(a, b), b) == a && Sub(Add(a, b), a) == b
  {
    hide Sub;
    RawSum(a, b);
  }

  lemma SubThenAdd(a: bv64, b: bv64)
    ensures Add(Sub(a, b), b) == a && Add(b, Sub(a, b)) == a
  {
    hide Add;
    RawDifference(a, b);
  }

  /** The multiplications: of fmix64, and of the words of a block. */
  function MulA(x: bv64): (y: bv64) { x * 0xff51afd7ed558ccd }

  function DivA(x: bv64): (y: bv64) { x * 0x4f74430c22a54005 }

  function MulB(x: bv64): (y: bv64) { x * 0xc4ceb9fe1a85ec53 }

  function DivB(x: bv64): (y: bv64) { x * 0x9cb4b2f8129337db }

  function MulC(x: bv64): (y: bv64) { x * 0x87c37b91114253d5 }

  function DivC(x: bv64): (y: bv64) { x * 0xa98409e882ce4d7d }

  function MulD(x: bv64): (y: bv64) { x * 0x4cf5ad432745937f }

  function DivD(x: bv64): (y: bv64) { x * 0xa81e14edd9de2c7f }

  function Fold33(x: bv64): (y: bv64) { x ^ (x >> 33) }

  /** The last part of the two steps of the state. */
  function Advance1(x: bv64): (y: bv64) { x * 5 + 0x52dce729 }

  function Retreat1(x: bv64): (y: bv64) { (x - 0x52dce729) * 0xcccccccccccccccd }

  function Advance2(x: bv64): (y: bv64) { x * 5 + 0x38495ab5 }

  function Retreat2(x: bv64): (y: bv64) { (x - 0x38495ab5) * 0xcccccccccccccccd }

  lemma RawA(x: bv64)
    ensures MulA(x * 0x4f74430c22a54005) == x && DivA(x * 0xff51afd7ed558ccd) == x
  {
  }

  lemma RawB(x: bv64)
    ensures MulB(x * 0x9cb4b2f8129337db) == x && DivB(x * 0xc4ceb9fe1a85ec53) == x
  {
  }

  lemma RawC(x: bv64)
    ensures MulC(x * 0xa98409e882ce4d7d) == x && DivC(x * 0x87c37b91114253d5) == x
  {
  }

  lemma RawD(x: bv64)
    ensures MulD(x * 0xa81e14edd9de2c7f) == x && DivD(x * 0x4cf5ad432745937f) == x
  {
  }

  lemma RawFold33(x: bv64)
    ensures Fold33(x ^ (x >> 33)) == x
  {
  }

  lemma RawAdvance1(x: bv64)
    ensures Advance1((x - 0x52dce729) * 0xcccccccccccccccd) == x && Retreat1(x * 5 + 0x52dce729) == x
  {
  }

  lemma RawAdvance2(x: bv64)
    ensures Advance2((x - 0x38495ab5) * 0xcccccccccccccccd) == x && Retreat2(x * 5 + 0x38495ab5) == x
  {
  }

  lemma InverseA(x: bv64)
    ensures MulA(DivA(x)) == x && DivA(MulA(x)) == x
  {
    hide MulA, DivA;
    InverseALeft(x);
    InverseARight(x);
  }

  lemma InverseALeft(x: bv64)
    ensures MulA(DivA(x)) == x
  {
    hide MulA;
    RawA(x);
  }

  lemma InverseARight(x: bv64)
    ensures DivA(MulA(x)) == x
  {
    hide DivA;
    RawA(x);
  }

  lemma InverseB(x: bv64)
    ensures MulB(DivB(x)) == x && DivB(MulB(x)) == x
  {
    hide MulB, DivB;
    InverseBLeft(x);
    InverseBRight(x);
  }

  lemma InverseBLeft(x: bv64)
    ensures MulB(DivB(x)) == x
  {
    hide MulB;
    RawB(x);
  }

  lemma InverseBRight(x: bv64)
    ensures DivB(MulB(x)) == x
  {
    hide DivB;
    RawB(x);
  }

  lemma InverseC(x: bv64)
    ensures MulC(DivC(x)) == x && DivC(MulC(x)) == x
  {
    hide MulC, DivC;
    InverseCLeft(x);
    InverseCRight(x);
  }

  lemma InverseCLeft(x: bv64)
    ensures MulC(DivC(x)) == x
  {
    hide MulC;
    RawC(x);
  }

  lemma InverseCRight(x: bv64)
    ensures DivC(MulC(x)) == x
  {
    hide DivC;
    RawC(x);
  }

  lemma InverseD(x: bv64)
    ensures MulD(DivD(x)) == x && DivD(MulD(x)) == x
  {
    hide MulD, DivD;
    InverseDLeft(x);
    InverseDRight(x);
  }

  lemma InverseDLeft(x: bv64)
    ensures MulD(DivD(x)) == x
  {
    hide MulD;
    RawD(x);
  }

  lemma InverseDRight(x: bv64)
    ensures DivD(MulD(x)) == x
  {
    hide DivD;
    RawD(x);
  }

  lemma InverseFold33(x: bv64)
    ensures Fold33(Fold33(x)) == x
  {
    RawFold33(x);
  }

  lemma InverseAdvance1(x: bv64)
    ensures Advance1(Retreat1(x)) == x && Retreat1(Advance1(x)) == x
  {
    hide Advance1, Retreat1;
    InverseAdvance1Left(x);
    InverseAdvance1Right(x);
  }

  lemma InverseAdvance1Left(x: bv64)
    ensures Advance1(Retreat1(x)) == x
  {
    hide Advance1;
    RawAdvance1(x);
  }

  lemma InverseAdvance1Right(x: bv64)
    ensures Retreat1(Advance1(x)) == x
  {
    hide Retreat1;
    RawAdvance1(x);
  }

  lemma InverseAdvance2(x: bv64)
    ensures Advance2(Retreat2(x)) == x && Retreat2(Advance2(x)) == x
  {
    hide Advance2, Retreat2;
    InverseAdvance2Left(x);
    InverseAdvance2Right(x);
  }

  lemma InverseAdvance2Left(x: bv64)
    ensures Advance2(Retreat2(x)) == x
  {
    hide Advance2;
    RawAdvance2(x);
  }

  lemma InverseAdvance2Right(x: bv64)
    ensures Retreat2(Advance2(x)) == x
  {
    hide Retreat2;
    RawAdvance2(x);
  }

  // ----- finalisation, blocks and state

  function Fmix(k: bv64): (r: bv64) {
    Fold33(MulB(Fold33(MulA(Fold33(k)))))
  }

  function Unfmix(r: bv64): (k: bv64) {
    Fold33(DivA(Fold33(DivB(Fold33(r)))))
  }

  /** fmix64 is a permutation of the words. */
  lemma FmixInverse(k: bv64)
    ensures Unfmix(Fmix(k)) == k && Fmix(Unfmix(k)) == k
  {
    hide Fold33, MulA, MulB, DivA, DivB;
    InverseFold33(k);
    InverseA(Fold33(k));
    InverseFold33(MulA(Fold33(k)));
    InverseB(Fold33(MulA(Fold33(k))));
    InverseFold33(MulB(Fold33(MulA(Fold33(k)))));
    InverseB(Fold33(k));
    InverseFold33(DivB(Fold33(k)));
    InverseA(Fold33(DivB(Fold33(k))));
    InverseFold33(DivA(Fold33(DivB(Fold33(k)))));
  }

  /** What the two words of a block go through before they enter the state. */
  function Mix1(k: bv64): (m: bv64) {
    MulD(Rotl31(MulC(k)))
  }

  function Unmix1(m: bv64): (k: bv64) {
    DivC(Rotl33(DivD(m)))
  }

  function Mix2(k: bv64): (m: bv64) {
    MulC(Rotl33(MulD(k)))
  }

  function Unmix2(m: bv64): (k: bv64) {
    DivD(Rotl31(DivC(m)))
  }

  lemma MixInverse(k: bv64)
    ensures Unmix1(Mix1(k)) == k && Mix1(Unmix1(k)) == k && Unmix2(Mix2(k)) == k && Mix2(Unmix2(k)) == k
  {
    hide Rotl31, Rotl33, MulC, MulD, DivC, DivD;
    InverseC(k);
    InverseD(k);
    Rotations(MulC(k));
    InverseD(Rotl31(MulC(k)));
    Rotations(DivD(k));
    InverseC(Rotl33(DivD(k)));
    Rotations(MulD(k));
    InverseC(Rotl33(MulD(k)));
    Rotations(DivC(k));
    InverseD(Rotl31(DivC(k)));
  }

  /** Two words: a state or a block. */
  datatype Pair = Pair(a: bv64, b: bv64)

  function Half1(h: bv64, other: bv64, k: bv64): (r: bv64) {
    Advance1(Add(Rotl27(Xor(h, Mix1(k))), other))
  }

  function Half2(h: bv64, other: bv64, k: bv64): (r: bv64) {
    Advance2(Add(Rotl31(Xor(h, Mix2(k))), other))
  }

  function Mixed1(r: bv64, other: bv64): (x: bv64) {
    Rotl37(Sub(Retreat1(r), other))
  }

  function Mixed2(r: bv64, other: bv64): (x: bv64) {
    Rotl33(Sub(Retreat2(r), other))
  }

  lemma Half1Inverse(h: bv64, other: bv64, k: bv64, r: bv64)
    ensures Unmix1(Xor(h, Mixed1(Half1(h, other, k), other))) == k
    ensures Half1(h, other, Unmix1(Xor(h, Mixed1(r, other)))) == r
    ensures Xor(Mixed1(Half1(h, other, k), other), Mix1(k)) == h
    ensures Half1(Xor(Mixed1(r, other), Mix1(k)), other, k) == r
  {
    hide Mix1, Unmix1, Rotl27, Rotl37, Advance1, Retreat1, Xor, Add, Sub;
    var x := Xor(h, Mix1(k));
    var y := Mixed1(r, other);
    InverseAdvance1(Add(Rotl27(x), other));
    AddSub(Rotl27(x), other);
    Rotations(x);
    XorXor(h, Mix1(k));
    MixInverse(k);
    MixInverse(Xor(h, y));
    XorXor(h, y);
    XorXor(y, Mix1(k));
    Rotations(Sub(Retreat1(r), other));
    AddSub(Retreat1(r), other);
    InverseAdvance1(r);
  }

  lemma Half2Inverse(h: bv64, other: bv64, k: bv64, r: bv64)
    ensures Unmix2(Xor(h, Mixed2(Half2(h, other, k), other))) == k
    ensures Half2(h, other, Unmix2(Xor(h, Mixed2(r, other)))) == r
    ensures Xor(Mixed2(Half2(h, other, k), other), Mix2(k)) == h
    ensures Half2(Xor(Mixed2(r, other), Mix2(k)), other, k) == r
  {
    hide Mix2, Unmix2, Rotl31, Rotl33, Advance2, Retreat2, Xor, Add, Sub;
    var x := Xor(h, Mix2(k));
    var y := Mixed2(r, other);
    InverseAdvance2(Add(Rotl31(x), other));
    AddSub(Rotl31(x), other);
    Rotations(x);
    XorXor(h, Mix2(k));
    MixInverse(k);
    MixInverse(Xor(h, y));
    XorXor(h, y);
    XorXor(y, Mix2(k));
    Rotations(Sub(Retreat2(r), other));
    AddSub(Retreat2(r), other);
    InverseAdvance2(r);
  }

  function Step(h: Pair, k: Pair): (r: Pair) {
    var h1 := Half1(h.a, h.b, k.a);
    Pair(h1, Half2(h.b, h1, k.b))
  }

  /** The block, and the state, that lead to a state. */
  function BlockOf(r: Pair, h: Pair): (k: Pair) {
    Pair(Unmix1(Xor(h.a, Mixed1(r.a, h.b))), Unmix2(Xor(h.b, Mixed2(r.b, r.a))))
  }

  function StateOf(r: Pair, k: Pair): (h: Pair) {
    var h2 := Xor(Mixed2(r.b, r.a), Mix2(k.b));
    Pair(Xor(Mixed1(r.a, h2), Mix1(k.a)), h2)
  }

  /** A step is a permutation of the states for each block, and of the blocks for each state. */
  lemma StepInverse(h: Pair, k: Pair, r: Pair)
    ensures BlockOf(Step(h, k), h) == k && Step(h, BlockOf(r, h)) == r
    ensures StateOf(Step(h, k), k) == h && Step(StateOf(r, k), k) == r
  {
    hide Half1, Half2, Mixed1, Mixed2, Xor, Mix1, Mix2, Unmix1, Unmix2;
    var s, t := Step(h, k), StateOf(r, k);
    Half1Inverse(h.a, h.b, k.a, r.a);
    Half2Inverse(h.b, s.a, k.b, s.b);
    Half2Inverse(h.b, r.a, k.b, r.b);
    Half1Inverse(t.a, t.b, k.a, r.a);
    Half2Inverse(t.b, r.a, k.b, r.b);
  }

  function Sums(x: Pair): (r: Pair) {
    var a := Add(x.a, x.b);
    Pair(a, Add(x.b, a))
  }

  function Unsums(r: Pair): (x: Pair) {
    var b := Sub(r.b, r.a);
    Pair(Sub(r.a, b), b)
  }

  lemma SumsInverse(x: Pair)
    ensures Unsums(Sums(x)) == x && Sums(Unsums(x)) == x
  {
    hide Add, Sub;
    AddSub(x.a, x.b);
    AddSub(x.b, Add(x.a, x.b));
    var b := Sub(x.b, x.a);
    AddSub(x.b, x.a);
    AddSub(x.a, b);
  }

  function Final(h: Pair, len: bv64): (r: Pair) {
    var s := Sums(Pair(Xor(h.a, len), Xor(h.b, len)));
    Sums(Pair(Fmix(s.a), Fmix(s.b)))
  }

  function Unfinal(r: Pair, len: bv64): (h: Pair) {
    var s := Unsums(r);
    var x := Unsums(Pair(Unfmix(s.a), Unfmix(s.b)));
    Pair(Xor(x.a, len), Xor(x.b, len))
  }

  /** The finalisation is a permutation of the states for each length. */
  lemma FinalInverse(h: Pair, len: bv64)
    ensures Unfinal(Final(h, len), len) == h && Final(Unfinal(h, len), len) == h
  {
    hide Sums, Unsums, Fmix, Unfmix, Xor;
    var p := Pair(Xor(h.a, len), Xor(h.b, len));
    var s := Sums(p);
    SumsInverse(p);
    SumsInverse(Pair(Fmix(s.a), Fmix(s.b)));
    FmixInverse(s.a);
    FmixInverse(s.b);
    XorXor(h.a, len);
    XorXor(h.b, len);
    var u := Unsums(h);
    var x := Unsums(Pair(Unfmix(u.a), Unfmix(u.b)));
    SumsInverse(h);
    SumsInverse(Pair(Unfmix(u.a), Unfmix(u.b)));
    FmixInverse(u.a);
    FmixInverse(u.b);
    XorXor(x.a, len);
    XorXor(x.b, len);
  }

  // ----- bytes and words

  /** Eight bytes as a word, the first the lowest; missing ones are zero. */
  function ByteAt(s: seq<bv8>, i: nat): (b: bv8) {
    if i < |s| then s[i] else 0
  }

  function Word8(a: bv8, b: bv8, c: bv8, d: bv8, e: bv8, f: bv8, g: bv8, h: bv8): (w: bv64) {
    (a as bv64) ^ ((b as bv64) << 8) ^ ((c as bv64) << 16) ^ ((d as bv64) << 24) ^
    ((e as bv64) << 32) ^ ((f as bv64) << 40) ^ ((g as bv64) << 48) ^ ((h as bv64) << 56)
  }

  function Word(s: seq<bv8>): (w: bv64) {
    Word8(ByteAt(s, 0), ByteAt(s, 1), ByteAt(s, 2), ByteAt(s, 3),
          ByteAt(s, 4), ByteAt(s, 5), ByteAt(s, 6), ByteAt(s, 7))
  }

  function BytesOf(w: bv64): (s: seq<bv8>)
    ensures |s| == 8
  {
    [(w & 0xff) as bv8, ((w >> 8) & 0xff) as bv8, ((w >> 16) & 0xff) as bv8, ((w >> 24) & 0xff) as bv8,
     ((w >> 32) & 0xff) as bv8, ((w >> 40) & 0xff) as bv8, ((w >> 48) & 0xff) as bv8, (w >> 56) as bv8]
  }

  lemma WordBytes(w: bv64)
    ensures Word(BytesOf(w)) == w
  {
  }

  lemma Word8Injective(a: bv8, b: bv8, c: bv8, d: bv8, e: bv8, f: bv8, g: bv8, h: bv8,
                       a': bv8, b': bv8, c': bv8, d': bv8, e': bv8, f': bv8, g': bv8, h': bv8)
    requires Word8(a, b, c, d, e, f, g, h) == Word8(a', b', c', d', e', f', g', h')
    ensures a == a' && b == b' && c == c' && d == d' && e == e' && f == f' && g == g' && h == h'
  {
  }

  lemma WordInjective(s: seq<bv8>, t: seq<bv8>)
    requires |s| == |t| <= 8 && Word(s) == Word(t)
    ensures s == t
  {
    hide Word8;
    Word8Injective(ByteAt(s, 0), ByteAt(s, 1), ByteAt(s, 2), ByteAt(s, 3),
                   ByteAt(s, 4), ByteAt(s, 5), ByteAt(s, 6), ByteAt(s, 7),
                   ByteAt(t, 0), ByteAt(t, 1), ByteAt(t, 2), ByteAt(t, 3),
                   ByteAt(t, 4), ByteAt(t, 5), ByteAt(t, 6), ByteAt(t, 7));
    assert forall i | 0 <= i < |s| :: s[i] == ByteAt(s, i) && t[i] == ByteAt(t, i);
  }

  // ----- the hash

  /** The 16 bytes of block i, as two words. */
  function BlockAt(data: seq<bv8>, i: nat): (k: Pair)
    requires 16 * i + 16 <= |data|
  {
    Pair(Word(data[16 * i..16 * i + 8]), Word(data[16 * i + 8..16 * i + 16]))
  }

  function Body(seed: bv64, data: seq<bv8>, n: nat): (h: Pair)
    requires 16 * n <= |data|
  {
    if n == 0 then Pair(seed, seed) else Step(Body(seed, data, n - 1), BlockAt(data, n - 1))
  }

  /** The up to fifteen bytes behind the blocks enter the state, the second word first. */
  function Tailed(h: Pair, t: seq<bv8>): (r: Pair)
    requires |t| <= 15
  {
    var h2 := if |t| > 8 then Xor(h.b, Mix2(Word(t[8..]))) else h.b;
    var h1 := if |t| > 0 then Xor(h.a, Mix1(Word(if |t| > 8 then t[..8] else t))) else h.a;
    Pair(h1, h2)
  }

  /** A 32-bit word widened. */
  function Wide(w: bv32): (x: bv64) {
    w as bv64
  }

  lemma WideOnce(m: bv32, n: bv32)
    ensures Wide(m) == Wide(n) <==> m == n
  {
  }

  function Hash(seed: bv32, data: Key, len: bv32): (h: Pair)
    requires Sized(data, len)
  {
    var n := |data| / 16;
    Final(Tailed(Body(Wide(seed), data, n), data[16 * n..]), Wide(len))
  }

  /** MurmurHash3_x64_128. */
  method MurmurHash3(data: Key, len: bv32, seed: bv32) returns (h1: bv64, h2: bv64)
    requires Sized(data, len)
    ensures Pair(h1, h2) == Hash(seed, data, len)
  {
    hide Word, Mix1, Mix2, Xor, Add, Rotl27, Rotl31, Advance1, Advance2, Fmix, Wide, Sized;
    var nblocks := |data| / 16;
    h1, h2 := Wide(seed), Wide(seed);
    for i := 0 to nblocks
      invariant Pair(h1, h2) == Body(Wide(seed), data, i)
    {
      var k1 := Word(data[16 * i..16 * i + 8]);
      var k2 := Word(data[16 * i + 8..16 * i + 16]);
      k1 := Mix1(k1);
      h1 := Xor(h1, k1);
      h1 := Rotl27(h1);
      h1 := Add(h1, h2);
      h1 := Advance1(h1);
      k2 := Mix2(k2);
      h2 := Xor(h2, k2);
      h2 := Rotl31(h2);
      h2 := Add(h2, h1);
      h2 := Advance2(h2);
    }
    var tail := data[nblocks * 16..];
    if |tail| > 8 {
      h2 := Xor(h2, Mix2(Word(tail[8..])));
    }
    if |tail| > 0 {
      h1 := Xor(h1, Mix1(Word(if |tail| > 8 then tail[..8] else tail)));
    }
    h1, h2 := Xor(h1, Wide(len)), Xor(h2, Wide(len));
    h1 := Add(h1, h2);
    h2 := Add(h2, h1);
    h1 := Fmix(h1);
    h2 := Fmix(h2);
    h1 := Add(h1, h2);
    h2 := Add(h2, h1);
  }

  // ----- no two keys that differ in one block have the same hash

  ghost predicate SameBlocks(a: seq<bv8>, b: seq<bv8>, n: nat, j: nat) {
    && 16 * n <= |a| && 16 * n <= |b|
    && forall i | 0 <= i < n && i != j :: BlockAt(a, i) == BlockAt(b, i)
  }

  lemma {:induction false} BodySame(seed: bv64, a: seq<bv8>, b: seq<bv8>, n: nat, j: nat)
    requires SameBlocks(a, b, n, j) && n <= j
    ensures Body(seed, a, n) == Body(seed, b, n)
  {
    hide Step, Word;
    if n > 0 {
      BodySame(seed, a, b, n - 1, j);
      assert BlockAt(a, n - 1) == BlockAt(b, n - 1);
    }
  }

  lemma {:induction false} BodyInjective(seed: bv64, a: seq<bv8>, b: seq<bv8>, n: nat, j: nat)
    requires SameBlocks(a, b, n, j) && j < n && Body(seed, a, n) == Body(seed, b, n)
    ensures BlockAt(a, j) == BlockAt(b, j)
    decreases n
  {
    hide Step, Word, BlockOf, StateOf;
    var h, h' := Body(seed, a, n - 1), Body(seed, b, n - 1);
    var k, k' := BlockAt(a, n - 1), BlockAt(b, n - 1);
    StepInverse(h, k, h);
    StepInverse(h', k', h');
    if j == n - 1 {
      BodySame(seed, a, b, n - 1, j);
    } else {
      assert k == k';
      BodyInjective(seed, a, b, n - 1, j);
    }
  }

  lemma XorMix(h: bv64, w: bv64, w': bv64)
    ensures Xor(h, Mix1(w)) == Xor(h, Mix1(w')) ==> w == w'
    ensures Xor(h, Mix2(w)) == Xor(h, Mix2(w')) ==> w == w'
  {
    hide Xor, Mix1, Mix2, Unmix1, Unmix2;
    MixInverse(w);
    MixInverse(w');
    XorXor(h, Mix1(w));
    XorXor(h, Mix1(w'));
    XorXor(h, Mix2(w));
    XorXor(h, Mix2(w'));
  }

  lemma TailInjective(h: Pair, t: seq<bv8>, t': seq<bv8>)
    requires |t| == |t'| <= 15 && Tailed(h, t) == Tailed(h, t')
    ensures t == t'
  {
    hide Xor, Mix1, Mix2, Word;
    if |t| > 8 {
      XorMix(h.b, Word(t[8..]), Word(t'[8..]));
      WordInjective(t[8..], t'[8..]);
      XorMix(h.a, Word(t[..8]), Word(t'[..8]));
      WordInjective(t[..8], t'[..8]);
      assert t == t[..8] + t[8..] && t' == t'[..8] + t'[8..];
    } else if |t| > 0 {
      XorMix(h.a, Word(t), Word(t'));
      WordInjective(t, t');
    }
  }

  lemma XorRight(x: bv64, y: bv64, c: bv64)
    ensures Xor(x, c) == Xor(y, c) ==> x == y
  {
    hide Xor;
    XorXor(x, c);
    XorXor(y, c);
  }

  lemma TailState(h: Pair, h': Pair, t: seq<bv8>)
    requires |t| <= 15 && Tailed(h, t) == Tailed(h', t)
    ensures h == h'
  {
    hide Xor, Mix1, Mix2, Word;
    if |t| > 8 {
      XorRight(h.b, h'.b, Mix2(Word(t[8..])));
      XorRight(h.a, h'.a, Mix1(Word(t[..8])));
    } else if |t| > 0 {
      XorRight(h.a, h'.a, Mix1(Word(t)));
    }
  }

  ghost predicate Agree(a: seq<bv8>, b: seq<bv8>, j: nat) {
    |a| == |b| && forall i | 0 <= i < |a| && !(16 * j <= i < 16 * j + 16) :: a[i] == b[i]
  }

  lemma AgreeBlocks(a: seq<bv8>, b: seq<bv8>, j: nat)
    requires Agree(a, b, j) && j <= |a| / 16
    ensures SameBlocks(a, b, |a| / 16, j)
    ensures var n := |a| / 16; j < n ==> a[16 * n..] == b[16 * n..]
  {
    hide Word;
    forall i | 0 <= i < |a| / 16 && i != j
      ensures BlockAt(a, i) == BlockAt(b, i)
    {
      assert a[16 * i..16 * i + 8] == b[16 * i..16 * i + 8];
      assert a[16 * i + 8..16 * i + 16] == b[16 * i + 8..16 * i + 16];
    }
  }

  /** The rest follows from the words that may differ. */
  lemma AgreeAll(a: seq<bv8>, b: seq<bv8>, j: nat)
    requires Agree(a, b, j) && j <= |a| / 16
    requires if j < |a| / 16 then BlockAt(a, j) == BlockAt(b, j) else a[16 * j..] == b[16 * j..]
    ensures a == b
  {
    hide Word;
    var m := 16 * j;
    if j < |a| / 16 {
      WordInjective(a[m..m + 8], b[m..m + 8]);
      WordInjective(a[m + 8..m + 16], b[m + 8..m + 16]);
      assert a == a[..m] + a[m..m + 8] + a[m + 8..m + 16] + a[m + 16..];
      assert b == b[..m] + b[m..m + 8] + b[m + 8..m + 16] + b[m + 16..];
    } else {
      assert a == a[..m] + a[m..] && b == b[..m] + b[m..];
    }
  }

  /** Two keys that agree outside of one block of 16 bytes, or outside of the tail, have different hashes
      unless they are equal. */
  lemma HashInjective(seed: bv32, a: Key, b: Key, len: bv32, j: nat)
    requires Sized(a, len) && Sized(b, len)
    requires Agree(a, b, j) && j <= |a| / 16 && Hash(seed, a, len) == Hash(seed, b, len)
    ensures a == b
  {
    hide Final, Unfinal, Word, Step, SameBlocks, Tailed, Wide, Sized;
    var n := |a| / 16;
    AgreeBlocks(a, b, j);
    var t, t' := a[16 * n..], b[16 * n..];
    var s := Wide(seed);
    var h, h' := Body(s, a, n), Body(s, b, n);
    FinalInverse(Tailed(h, t), Wide(len));
    FinalInverse(Tailed(h', t'), Wide(len));
    if j == n {
      BodySame(s, a, b, n, j);
      TailInjective(h, t, t');
    } else {
      TailState(h, h', t);
      BodyInjective(s, a, b, n, j);
    }
    AgreeAll(a, b, j);
  }

  /** On keys of 16 bytes the hash is a permutation of the 128-bit values: each is the hash of one key. */
  lemma SixteenByteKeys(seed: bv32, h: Pair) returns (key: Key)
    ensures |key| == 16 && Hash(seed, key, 16) == h
    ensures forall other: Key | |other| == 16 && Hash(seed, other, 16) == h :: other == key
  {
    hide Final, Unfinal, Step, BlockOf, Word, BytesOf, Wide, Xor;
    var start := Pair(Wide(seed), Wide(seed));
    var target := Unfinal(h, Wide(16));
    var k := BlockOf(target, start);
    key := BytesOf(k.a) + BytesOf(k.b);
    WordBytes(k.a);
    WordBytes(k.b);
    assert key[0..8] == BytesOf(k.a) && key[8..16] == BytesOf(k.b);
    assert BlockAt(key, 0) == k;
    StepInverse(start, k, target);
    FinalInverse(h, Wide(16));
    assert Body(Wide(seed), key, 0) == start;
    assert Body(Wide(seed), key, 1) == target;
    assert key[16..] == [];
    forall other: Key | |other| == 16 && Hash(seed, other, 16) == h
      ensures other == key
    {
      HashInjective(seed, other, key, 16, 0);
    }
  }

  // ----- what the length is for

  /** A tail with zeros behind it, up to a block. */
  function Padded(t: seq<bv8>): (s: seq<bv8>)
    requires |t| <= 15
    ensures |s| == 16
  {
    t + seq(16 - |t|, _ => 0)
  }

  lemma MixZero()
    ensures Mix1(0) == 0 && Mix2(0) == 0
  {
  }

  lemma WordZero()
    ensures Word8(0, 0, 0, 0, 0, 0, 0, 0) == 0
  {
  }

  lemma XorZero(h: bv64)
    ensures Xor(h, 0) == h
  {
  }

  /** Words with the same bytes, missing ones zero, are the same. */
  lemma SameWord(s: seq<bv8>, t: seq<bv8>)
    requires forall i | 0 <= i < 8 :: ByteAt(s, i) == ByteAt(t, i)
    ensures Word(s) == Word(t)
  {
    hide Word8;
  }

  lemma NoWord()
    ensures Word([]) == 0
  {
    hide Word8;
    WordZero();
  }

  /** The same blocks, and tails that are the same but for zeros at the end. */
  ghost predicate SameButZeros(a: Key, b: Key, n: nat) {
    && 16 * n <= |a| < 16 * n + 16 && 16 * n <= |b| < 16 * n + 16
    && a[..16 * n] == b[..16 * n] && Padded(a[16 * n..]) == Padded(b[16 * n..])
  }

  /** A tail enters the state as its padded words do, also where there is none. */
  lemma TailedPadded(h: Pair, t: seq<bv8>)
    requires |t| <= 15
    ensures var k := BlockAt(Padded(t), 0); Tailed(h, t) == Pair(Xor(h.a, Mix1(k.a)), Xor(h.b, Mix2(k.b)))
  {
    hide Word, Xor, Mix1, Mix2;
    var p := Padded(t);
    MixZero();
    NoWord();
    XorZero(h.a);
    XorZero(h.b);
    if |t| > 8 {
      SameWord(t[..8], p[0..8]);
      SameWord(t[8..], p[8..16]);
    } else {
      SameWord(t, p[0..8]);
      SameWord([], p[8..16]);
    }
  }

  lemma {:induction false} SamePrefix(seed: bv64, a: seq<bv8>, b: seq<bv8>, n: nat)
    requires 16 * n <= |a| && 16 * n <= |b| && a[..16 * n] == b[..16 * n]
    ensures Body(seed, a, n) == Body(seed, b, n)
  {
    hide Step, Word;
    if n > 0 {
      var m := 16 * (n - 1);
      assert a[..16 * n][..m] == a[..m] && b[..16 * n][..m] == b[..m];
      SamePrefix(seed, a, b, n - 1);
      assert a[m..m + 8] == a[..16 * n][m..m + 8] && b[m..m + 8] == b[..16 * n][m..m + 8];
      assert a[m + 8..m + 16] == a[..16 * n][m + 8..m + 16] && b[m + 8..m + 16] == b[..16 * n][m + 8..m + 16];
    }
  }

  lemma SameKeys(a: Key, b: Key, n: nat)
    requires SameButZeros(a, b, n)
    ensures |a| == |b| <==> a == b
  {
    var t, t' := a[16 * n..], b[16 * n..];
    assert a == a[..16 * n] + t && b == b[..16 * n] + t';
    assert t == Padded(t)[..|t|] && t' == Padded(t')[..|t'|];
  }

  lemma LengthsApart(h: Pair, m: bv32, n: bv32)
    ensures Final(h, Wide(m)) == Final(h, Wide(n)) <==> m == n
  {
    hide Sums, Unsums, Fmix, Unfmix, Xor, Wide;
    var p, q := Pair(Xor(h.a, Wide(m)), Xor(h.b, Wide(m))), Pair(Xor(h.a, Wide(n)), Xor(h.b, Wide(n)));
    var s, t := Sums(p), Sums(q);
    SumsInverse(p);
    SumsInverse(q);
    SumsInverse(Pair(Fmix(s.a), Fmix(s.b)));
    SumsInverse(Pair(Fmix(t.a), Fmix(t.b)));
    FmixInverse(s.a);
    FmixInverse(s.b);
    FmixInverse(t.a);
    FmixInverse(t.b);
    XorXor(h.a, Wide(m));
    XorXor(h.a, Wide(n));
    WideOnce(m, n);
  }

  /** Of two keys with the same blocks whose tails are the same but for zeros at the end, the hashes are the same
      exactly when the keys are: the length tells them apart. */
  lemma LengthCounts(seed: bv32, a: Key, m: bv32, b: Key, k: bv32)
    requires Sized(a, m) && Sized(b, k)
    requires SameButZeros(a, b, |a| / 16)
    ensures Hash(seed, a, m) == Hash(seed, b, k) <==> a == b
  {
    hide Final, Xor, Mix1, Mix2, Word, Step, Tailed, Sized, Wide;
    var n := |a| / 16;
    var t, t' := a[16 * n..], b[16 * n..];
    SamePrefix(Wide(seed), a, b, n);
    var h := Body(Wide(seed), a, n);
    TailedPadded(h, t);
    TailedPadded(h, t');
    SizedOnce(a, m, b, k);
    LengthsApart(Tailed(h, t), m, k);
    SameKeys(a, b, n);
  }

  /** So a zero byte more is another hash, wherever it does not complete a block. */
  lemma ZeroAppended(seed: bv32, key: Key, m: bv32, n: bv32)
    requires |key| % 16 != 15 && Sized(key, m) && Sized(key + [0], n)
    ensures Hash(seed, key + [0], n) != Hash(seed, key, m)
  {
    hide Hash, Sized;
    var b := |key| / 16;
    var more := key + [0];
    assert more[..16 * b] == key[..16 * b] && more[16 * b..] == key[16 * b..] + [0];
    LengthCounts(seed, key, m, more, n);
  }

  // ----- a published value

  const FOX_0: seq<bv8> := [0x54, 0x68, 0x65, 0x20, 0x71, 0x75, 0x69, 0x63]
  const FOX_1: seq<bv8> := [0x6b, 0x20, 0x62, 0x72, 0x6f, 0x77, 0x6e, 0x20]
  const FOX_2: seq<bv8> := [0x66, 0x6f, 0x78, 0x20, 0x6a, 0x75, 0x6d, 0x70]
  const FOX_3: seq<bv8> := [0x73, 0x20, 0x6f, 0x76, 0x65, 0x72, 0x20, 0x74]
  const FOX_4: seq<bv8> := [0x68, 0x65, 0x20, 0x6c, 0x61, 0x7a, 0x79, 0x20]
  const FOX_5: seq<bv8> := [0x64, 0x6f, 0x67]
  const FOX := FOX_0 + FOX_1 + FOX_2 + FOX_3 + FOX_4 + FOX_5

  lemma FoxWord8s()
    ensures Word8(0x54, 0x68, 0x65, 0x20, 0x71, 0x75, 0x69, 0x63) == 0x6369757120656854
    ensures Word8(0x6b, 0x20, 0x62, 0x72, 0x6f, 0x77, 0x6e, 0x20) == 0x206e776f7262206b
    ensures Word8(0x66, 0x6f, 0x78, 0x20, 0x6a, 0x75, 0x6d, 0x70) == 0x706d756a20786f66
    ensures Word8(0x73, 0x20, 0x6f, 0x76, 0x65, 0x72, 0x20, 0x74) == 0x74207265766f2073
    ensures Word8(0x68, 0x65, 0x20, 0x6c, 0x61, 0x7a, 0x79, 0x20) == 0x20797a616c206568
    ensures Word8(0x64, 0x6f, 0x67, 0x0, 0x0, 0x0, 0x0, 0x0) == 0x676f64
    ensures Wide(0) == 0 && Wide(43) == 43
  {
  }

  lemma FoxWords()
    ensures BlockAt(FOX, 0) == Pair(0x6369757120656854, 0x206e776f7262206b)
    ensures BlockAt(FOX, 1) == Pair(0x706d756a20786f66, 0x74207265766f2073)
    ensures Word(FOX[32..][..8]) == 0x20797a616c206568 && Word(FOX[32..][8..]) == 0x676f64
    ensures Wide(0) == 0 && Wide(43) == 43
  {
    hide Word8, Wide;
    FoxWord8s();
    assert FOX[0..8] == FOX_0 && FOX[8..16] == FOX_1 && FOX[16..24] == FOX_2 && FOX[24..32] == FOX_3;
    assert FOX[32..][..8] == FOX_4 && FOX[32..][8..] == FOX_5;
  }

  lemma FoxSteps()
    ensures Step(Pair(0, 0), Pair(0x6369757120656854, 0x206e776f7262206b))
         == Pair(0x65f54070009580c, 0x1185bfe0bc383732)
    ensures Step(Pair(0x65f54070009580c, 0x1185bfe0bc383732), Pair(0x706d756a20786f66, 0x74207265766f2073))
         == Pair(0xef7ef36e84b36d66, 0x20112c4dac59411d)
    ensures Xor(0xef7ef36e84b36d66, Mix1(0x20797a616c206568)) == 0x515233ebf2a47c15
    ensures Xor(0x20112c4dac59411d, Mix2(0x676f64)) == 0x106ea6d665619948
  {
  }

  lemma FoxFinal()
    ensures Final(Pair(0x515233ebf2a47c15, 0x106ea6d665619948), 43) == Pair(0xe34bbc7bbc071b6c, 0x7a433ca9c49a9347)
  {
  }

  /** "The quick brown fox jumps over the lazy dog" with seed 0. */
  lemma FoxAnswer()
    ensures Hash(0, FOX, 43) == Pair(0xe34bbc7bbc071b6c, 0x7a433ca9c49a9347)
  {
    hide Step, BlockAt, Word, Mix1, Mix2, Final, Xor, Wide;
    FoxWords();
    FoxSteps();
    FoxFinal();
    assert |FOX| / 16 == 2;
    assert Body(0, FOX, 0) == Pair(0, 0);
    assert Body(0, FOX, 1) == Pair(0x65f54070009580c, 0x1185bfe0bc383732);
    assert Body(0, FOX, 2) == Pair(0xef7ef36e84b36d66, 0x20112c4dac59411d);
  }
}
