/** MurmurHash3_x86_32: a fold of invertible steps over the blocks of a key. */
module Murmur32 {
  import opened HashKeys

  // ----- the operations on words, each with its inverse; Raw lemmas show one side written out

  function Rotl13(x: bv32): (y: bv32) { (x << 13) | (x >> 19) }

  function Rotl15(x: bv32): (y: bv32) { (x << 15) | (x >> 17) }

  function Rotl17(x: bv32): (y: bv32) { (x << 17) | (x >> 15) }

  function Rotl19(x: bv32): (y: bv32) { (x << 19) | (x >> 13) }

  lemma Rotations(x: bv32)
    ensures Rotl17(Rotl15(x)) == x && Rotl15(Rotl17(x)) == x
    ensures Rotl19(Rotl13(x)) == x && Rotl13(Rotl19(x)) == x
  {
  }

  /** The two multiplications and the two foldings of fmix32. */
  function MulA(x: bv32): (y: bv32) { x * 0x85ebca6b }

  function DivA(x: bv32): (y: bv32) { x * 0xa5cb9243 }

  function MulB(x: bv32): (y: bv32) { x * 0xc2b2ae35 }

  function DivB(x: bv32): (y: bv32) { x * 0x7ed1b41d }

  function Fold16(x: bv32): (y: bv32) { x ^ (x >> 16) }

  function Fold13(x: bv32): (y: bv32) { x ^ (x >> 13) }

  function Unfold13(x: bv32): (y: bv32) { x ^ (x >> 13) ^ (x >> 26) }

  /** The two multiplications of a block, and the step of the state. */
  function MulC(x: bv32): (y: bv32) { x * 0xcc9e2d51 }

  function DivC(x: bv32): (y: bv32) { x * 0xdee13bb1 }

  function MulD(x: bv32): (y: bv32) { x * 0x1b873593 }

  function DivD(x: bv32): (y: bv32) { x * 0x56ed309b }

  function Advance(x: bv32): (y: bv32) { x * 5 + 0xe6546b64 }

  function Retreat(x: bv32): (y: bv32) { (x - 0xe6546b64) * 0xcccccccd }

  lemma RawA(x: bv32)
    ensures MulA(x * 0xa5cb9243) == x && DivA(x * 0x85ebca6b) == x
  {
  }

  lemma RawB(x: bv32)
    ensures MulB(x * 0x7ed1b41d) == x && DivB(x * 0xc2b2ae35) == x
  {
  }

  lemma RawC(x: bv32)
    ensures MulC(x * 0xdee13bb1) == x && DivC(x * 0xcc9e2d51) == x
  {
  }

  lemma RawD(x: bv32)
    ensures MulD(x * 0x56ed309b) == x && DivD(x * 0x1b873593) == x
  {
  }

  lemma RawFold16(x: bv32)
    ensures Fold16(x ^ (x >> 16)) == x
  {
  }

  lemma RawFold13(x: bv32)
    ensures Unfold13(x ^ (x >> 13)) == x
  {
  }

  lemma RawUnfold13(x: bv32)
    ensures Fold13(x ^ (x >> 13) ^ (x >> 26)) == x
  {
  }

  lemma RawAdvance(x: bv32)
    ensures Advance((x - 0xe6546b64) * 0xcccccccd) == x
  {
  }

  lemma RawRetreat(x: bv32)
    ensures Retreat(x * 5 + 0xe6546b64) == x
  {
  }

  lemma InverseA(x: bv32)
    ensures MulA(DivA(x)) == x && DivA(MulA(x)) == x
  {
    hide MulA, DivA;
    InverseALeft(x);
    InverseARight(x);
  }

  lemma InverseALeft(x: bv32)
    ensures MulA(DivA(x)) == x
  {
    hide MulA;
    RawA(x);
  }

  lemma InverseARight(x: bv32)
    ensures DivA(MulA(x)) == x
  {
    hide DivA;
    RawA(x);
  }

  lemma InverseB(x: bv32)
    ensures MulB(DivB(x)) == x && DivB(MulB(x)) == x
  {
    hide MulB, DivB;
    InverseBLeft(x);
    InverseBRight(x);
  }

  lemma InverseBLeft(x: bv32)
    ensures MulB(DivB(x)) == x
  {
    hide MulB;
    RawB(x);
  }

  lemma InverseBRight(x: bv32)
    ensures DivB(MulB(x)) == x
  {
    hide DivB;
    RawB(x);
  }

  lemma InverseC(x: bv32)
    ensures MulC(DivC(x)) == x && DivC(MulC(x)) == x
  {
    hide MulC, DivC;
    InverseCLeft(x);
    InverseCRight(x);
  }

  lemma InverseCLeft(x: bv32)
    ensures MulC(DivC(x)) == x
  {
    hide MulC;
    RawC(x);
  }

  lemma InverseCRight(x: bv32)
    ensures DivC(MulC(x)) == x
  {
    hide DivC;
    RawC(x);
  }

  lemma InverseD(x: bv32)
    ensures MulD(DivD(x)) == x && DivD(MulD(x)) == x
  {
    hide MulD, DivD;
    InverseDLeft(x);
    InverseDRight(x);
  }

  lemma InverseDLeft(x: bv32)
    ensures MulD(DivD(x)) == x
  {
    hide MulD;
    RawD(x);
  }

  lemma InverseDRight(x: bv32)
    ensures DivD(MulD(x)) == x
  {
    hide DivD;
    RawD(x);
  }

  lemma InverseFold16(x: bv32)
    ensures Fold16(Fold16(x)) == x
  {
    RawFold16(x);
  }

  lemma InverseFold13(x: bv32)
    ensures Fold13(Unfold13(x)) == x && Unfold13(Fold13(x)) == x
  {
    hide Fold13, Unfold13;
    InverseFold13Left(x);
    InverseFold13Right(x);
  }

  lemma InverseFold13Left(x: bv32)
    ensures Fold13(Unfold13(x)) == x
  {
    hide Fold13;
    RawUnfold13(x);
  }

  lemma InverseFold13Right(x: bv32)
    ensures Unfold13(Fold13(x)) == x
  {
    hide Unfold13;
    RawFold13(x);
  }

  lemma InverseAdvance(x: bv32)
    ensures Advance(Retreat(x)) == x && Retreat(Advance(x)) == x
  {
    hide Advance, Retreat;
    InverseAdvanceLeft(x);
    InverseAdvanceRight(x);
  }

  lemma InverseAdvanceLeft(x: bv32)
    ensures Advance(Retreat(x)) == x
  {
    hide Advance;
    RawAdvance(x);
  }

  lemma InverseAdvanceRight(x: bv32)
    ensures Retreat(Advance(x)) == x
  {
    hide Retreat;
    RawRetreat(x);
  }

  // ----- finalisation, blocks and state

  function Fmix(h: bv32): (r: bv32) {
    Fold16(MulB(Fold13(MulA(Fold16(h)))))
  }

  function Unfmix(r: bv32): (h: bv32) {
    Fold16(DivA(Unfold13(DivB(Fold16(r)))))
  }

  /** fmix32 is a permutation of the words. */
  lemma FmixInverse(h: bv32)
    ensures Unfmix(Fmix(h)) == h && Fmix(Unfmix(h)) == h
  {
    hide Fold16, Fold13, Unfold13, MulA, MulB, DivA, DivB;
    InverseFold16(h);
    InverseFold16(MulB(Fold13(MulA(Fold16(h)))));
    InverseB(Fold13(MulA(Fold16(h))));
    InverseFold13(MulA(Fold16(h)));
    InverseA(Fold16(h));
    InverseFold16(DivA(Unfold13(DivB(Fold16(h)))));
    InverseA(Unfold13(DivB(Fold16(h))));
    InverseFold13(DivB(Fold16(h)));
    InverseB(Fold16(h));
  }

  /** What a block goes through before it enters the state. */
  function Mix(k: bv32): (m: bv32) {
    MulD(Rotl15(MulC(k)))
  }

  function Unmix(m: bv32): (k: bv32) {
    DivC(Rotl17(DivD(m)))
  }

  lemma MixInverse(k: bv32)
    ensures Unmix(Mix(k)) == k && Mix(Unmix(k)) == k
  {
    hide Rotl15, Rotl17, MulC, MulD, DivC, DivD;
    InverseC(k);
    Rotations(MulC(k));
    InverseD(Rotl15(MulC(k)));
    InverseD(k);
    Rotations(DivD(k));
    InverseC(Rotl17(DivD(k)));
  }

  function Xor(a: bv32, b: bv32): (r: bv32) { a ^ b }

  lemma XorXor(a: bv32, b: bv32)
    ensures Xor(Xor(a, b), b) == a && Xor(a, Xor(a, b)) == b
  {
  }

  function Step(h: bv32, k: bv32): (r: bv32) {
    Advance(Rotl13(Xor(h, Mix(k))))
  }

  /** The block, and the state, that lead to a state. */
  function BlockOf(r: bv32, h: bv32): (k: bv32) {
    Unmix(Xor(h, Rotl19(Retreat(r))))
  }

  function StateOf(r: bv32, k: bv32): (h: bv32) {
    Xor(Rotl19(Retreat(r)), Mix(k))
  }

  /** A step is a permutation of the states for each block, and of the blocks for each state. */
  lemma StepInverse(h: bv32, k: bv32, r: bv32)
    ensures BlockOf(Step(h, k), h) == k && Step(h, BlockOf(r, h)) == r
    ensures StateOf(Step(h, k), k) == h && Step(StateOf(r, k), k) == r
  {
    hide Mix, Unmix, Rotl13, Rotl19, Advance, Retreat, Xor;
    var u := Rotl19(Retreat(r));
    MixInverse(k);
    MixInverse(Xor(h, u));
    Rotations(Xor(h, Mix(k)));
    InverseAdvance(Rotl13(Xor(h, Mix(k))));
    Rotations(Retreat(r));
    InverseAdvance(r);
    XorXor(h, Mix(k));
    XorXor(h, u);
    XorXor(u, Mix(k));
  }

  // ----- bytes and words

  function Word(a: bv8, b: bv8, c: bv8, d: bv8): (w: bv32) {
    (a as bv32) ^ ((b as bv32) << 8) ^ ((c as bv32) << 16) ^ ((d as bv32) << 24)
  }

  function BytesOf(w: bv32): (s: seq<bv8>)
    ensures |s| == 4
  {
    [(w & 0xff) as bv8, ((w >> 8) & 0xff) as bv8, ((w >> 16) & 0xff) as bv8, (w >> 24) as bv8]
  }

  lemma WordInjective(a: bv8, b: bv8, c: bv8, d: bv8, a': bv8, b': bv8, c': bv8, d': bv8)
    requires Word(a, b, c, d) == Word(a', b', c', d')
    ensures a == a' && b == b' && c == c' && d == d'
  {
  }

  /** getblock: the i-th word of a key, its first byte the lowest. */
  function BlockAt(data: seq<bv8>, i: nat): (w: bv32)
    requires 4 * i + 4 <= |data|
  {
    Word(data[4 * i], data[4 * i + 1], data[4 * i + 2], data[4 * i + 3])
  }

  /** The up to three bytes behind the blocks. */
  function TailWord(t: seq<bv8>): (w: bv32)
    requires 1 <= |t| <= 3
  {
    Word(t[0], if |t| > 1 then t[1] else 0, if |t| > 2 then t[2] else 0, 0)
  }

  lemma WordBytes(w: bv32)
    ensures BlockAt(BytesOf(w), 0) == w
  {
  }

  // ----- the hash

  /** The state after n blocks: a fold in the order of the key. */
  function Body(seed: bv32, data: seq<bv8>, n: nat): (h: bv32)
    requires 4 * n <= |data|
  {
    if n == 0 then seed else Step(Body(seed, data, n - 1), BlockAt(data, n - 1))
  }

  function Tailed(h: bv32, t: seq<bv8>): (r: bv32)
    requires |t| <= 3
  {
    if t == [] then h else Xor(h, Mix(TailWord(t)))
  }

  function Hash(seed: bv32, data: Key, len: bv32): (h: bv32)
    requires Sized(data, len)
  {
    var n := |data| / 4;
    Fmix(Xor(Tailed(Body(seed, data, n), data[4 * n..]), len))
  }

  /** MurmurHash3_x86_32: the loop counts block indices from below up to zero. */
  method MurmurHash3(data: Key, len: bv32, seed: bv32) returns (out: bv32)
    requires Sized(data, len)
    ensures out == Hash(seed, data, len)
  {
    hide Fmix, Mix, Xor, Rotl13, Advance, Word, Sized;
    var nblocks := |data| / 4;
    var h1 := seed;
    var i: int := -nblocks;
    while i != 0
      invariant -nblocks <= i <= 0 && h1 == Body(seed, data, nblocks + i)
    {
      var k1 := BlockAt(data, nblocks + i);
      k1 := Mix(k1);
      h1 := Xor(h1, k1);
      h1 := Rotl13(h1);
      h1 := Advance(h1);
      i := i + 1;
    }
    var tail := data[nblocks * 4..];
    if |tail| > 0 {
      var k1 := TailWord(tail);
      k1 := Mix(k1);
      h1 := Xor(h1, k1);
    }
    h1 := Xor(h1, len);
    out := Fmix(h1);
  }

  // ----- no two keys that differ in one block have the same hash

  ghost predicate SameBlocks(a: seq<bv8>, b: seq<bv8>, n: nat, j: nat) {
    && 4 * n <= |a| && 4 * n <= |b|
    && forall i | 0 <= i < n && i != j :: BlockAt(a, i) == BlockAt(b, i)
  }

  lemma {:induction false} BodySame(seed: bv32, a: seq<bv8>, b: seq<bv8>, n: nat, j: nat)
    requires SameBlocks(a, b, n, j) && n <= j
    ensures Body(seed, a, n) == Body(seed, b, n)
  {
    hide Step, Word;
    if n > 0 {
      BodySame(seed, a, b, n - 1, j);
      assert BlockAt(a, n - 1) == BlockAt(b, n - 1);
    }
  }

  lemma {:induction false} BodyInjective(seed: bv32, a: seq<bv8>, b: seq<bv8>, n: nat, j: nat)
    requires SameBlocks(a, b, n, j) && j < n && Body(seed, a, n) == Body(seed, b, n)
    ensures BlockAt(a, j) == BlockAt(b, j)
    decreases n
  {
    hide Step, Word, BlockOf, StateOf;
    var h, h' := Body(seed, a, n - 1), Body(seed, b, n - 1);
    var k, k' := BlockAt(a, n - 1), BlockAt(b, n - 1);
    StepInverse(h, k, h);
    StepInverse(h', k', h');
    if j == n - 1 {
      BodySame(seed, a, b, n - 1, j);
    } else {
      assert k == k';
      BodyInjective(seed, a, b, n - 1, j);
    }
  }

  lemma TailInjective(h: bv32, t: seq<bv8>, t': seq<bv8>)
    requires |t| == |t'| <= 3 && Tailed(h, t) == Tailed(h, t')
    ensures t == t'
  {
    hide Word, Xor, Mix;
    if t != [] {
      var w, w' := TailWord(t), TailWord(t');
      TailWords(h, w, w');
      WordInjective(t[0], if |t| > 1 then t[1] else 0, if |t| > 2 then t[2] else 0, 0,
                    t'[0], if |t'| > 1 then t'[1] else 0, if |t'| > 2 then t'[2] else 0, 0);
    }
  }

  lemma TailWords(h: bv32, w: bv32, w': bv32)
    requires Xor(h, Mix(w)) == Xor(h, Mix(w'))
    ensures w == w'
  {
    hide Xor, Mix, Unmix;
    XorXor(h, Mix(w));
    XorXor(h, Mix(w'));
    MixInverse(w);
    MixInverse(w');
  }

  lemma XorRight(x: bv32, y: bv32, c: bv32)
    requires Xor(x, c) == Xor(y, c)
    ensures x == y
  {
    hide Xor;
    XorXor(x, c);
    XorXor(y, c);
  }

  lemma FinalInjective(x: bv32, y: bv32, len: bv32)
    requires Fmix(Xor(x, len)) == Fmix(Xor(y, len))
    ensures x == y
  {
    hide Fmix, Unfmix, Xor;
    FmixInverse(Xor(x, len));
    FmixInverse(Xor(y, len));
    XorRight(x, y, len);
  }

  ghost predicate Agree(a: seq<bv8>, b: seq<bv8>, j: nat) {
    |a| == |b| && forall i | 0 <= i < |a| && !(4 * j <= i < 4 * j + 4) :: a[i] == b[i]
  }

  lemma AgreeBlocks(a: seq<bv8>, b: seq<bv8>, j: nat)
    requires Agree(a, b, j) && j <= |a| / 4
    ensures SameBlocks(a, b, |a| / 4, j)
    ensures var n := |a| / 4; j < n ==> a[4 * n..] == b[4 * n..]
  {
    hide Word;
  }

  /** The rest follows from the words that may differ. */
  lemma AgreeAll(a: seq<bv8>, b: seq<bv8>, j: nat)
    requires Agree(a, b, j) && j <= |a| / 4
    requires if j < |a| / 4 then BlockAt(a, j) == BlockAt(b, j) else a[4 * j..] == b[4 * j..]
    ensures a == b
  {
    hide Word;
    if j < |a| / 4 {
      WordInjective(a[4 * j], a[4 * j + 1], a[4 * j + 2], a[4 * j + 3],
                    b[4 * j], b[4 * j + 1], b[4 * j + 2], b[4 * j + 3]);
    } else {
      assert a == a[..4 * j] + a[4 * j..] && b == b[..4 * j] + b[4 * j..];
    }
  }

  /** Two keys that agree outside of one block, or outside of the tail, have different hashes unless they
      are equal. */
  lemma HashInjective(seed: bv32, a: Key, b: Key, len: bv32, j: nat)
    requires Sized(a, len) && Sized(b, len)
    requires Agree(a, b, j) && j <= |a| / 4 && Hash(seed, a, len) == Hash(seed, b, len)
    ensures a == b
  {
    hide Fmix, Xor, Word, Step, SameBlocks, TailWord, Sized, Mix;
    var n := |a| / 4;
    AgreeBlocks(a, b, j);
    var t, t' := a[4 * n..], b[4 * n..];
    var h, h' := Body(seed, a, n), Body(seed, b, n);
    FinalInjective(Tailed(h, t), Tailed(h', t'), len);
    if j == n {
      BodySame(seed, a, b, n, j);
      TailInjective(h, t, t');
    } else {
      TailState(h, h', t);
      BodyInjective(seed, a, b, n, j);
    }
    AgreeAll(a, b, j);
  }

  lemma TailState(h: bv32, h': bv32, t: seq<bv8>)
    requires |t| <= 3 && Tailed(h, t) == Tailed(h', t)
    ensures h == h'
  {
    hide Xor, Mix, TailWord;
    if t != [] {
      XorRight(h, h', Mix(TailWord(t)));
    }
  }

  /** Keys of one length of at most four bytes do not collide. */
  lemma ShortKeys(seed: bv32, a: Key, b: Key, len: bv32)
    requires Sized(a, len) && Sized(b, len) && |a| <= 4
    ensures Hash(seed, a, len) == Hash(seed, b, len) <==> a == b
  {
    hide Hash;
    if Hash(seed, a, len) == Hash(seed, b, len) {
      HashInjective(seed, a, b, len, 0);
    }
  }

  /** On keys of four bytes the hash is a permutation: every word is the hash of one. */
  lemma FourByteKeys(seed: bv32, h: bv32) returns (key: Key)
    ensures |key| == 4 && Hash(seed, key, 4) == h
    ensures forall other: Key | |other| == 4 && Hash(seed, other, 4) == h :: other == key
  {
    hide Fmix, Unfmix, Xor, Step, BlockOf, Word, BytesOf;
    var target := Xor(Unfmix(h), 4);
    var w := BlockOf(target, seed);
    key := BytesOf(w);
    WordBytes(w);
    StepInverse(seed, w, target);
    XorXor(Unfmix(h), 4);
    FmixInverse(h);
    assert Body(seed, key, 0) == seed;
    assert Body(seed, key, 1) == target;
    assert key[4..] == [];
    forall other: Key | |other| == 4 && Hash(seed, other, 4) == h
      ensures other == key
    {
      ShortKeys(seed, other, key, 4);
    }
  }

  // ----- what the length is for

  /** A tail with zeros behind it, up to a word. */
  function Padded(t: seq<bv8>): (s: seq<bv8>)
    requires |t| <= 3
    ensures |s| == 4
  {
    t + seq(4 - |t|, _ => 0)
  }

  lemma MixZero()
    ensures Mix(0) == 0
  {
  }

  lemma WordZero()
    ensures Word(0, 0, 0, 0) == 0
  {
  }

  lemma XorZero(h: bv32)
    ensures Xor(h, 0) == h
  {
  }

  /** The same blocks, and tails that are the same but for zeros at the end. */
  ghost predicate SameButZeros(a: Key, b: Key, n: nat) {
    && 4 * n <= |a| < 4 * n + 4 && 4 * n <= |b| < 4 * n + 4
    && a[..4 * n] == b[..4 * n] && Padded(a[4 * n..]) == Padded(b[4 * n..])
  }

  /** A tail enters the state as its padded word does, also where there is none. */
  lemma TailedPadded(h: bv32, t: seq<bv8>)
    requires |t| <= 3
    ensures Tailed(h, t) == Xor(h, Mix(BlockAt(Padded(t), 0)))
  {
    hide Word, Xor, Mix;
    if t == [] {
      MixZero();
      WordZero();
      XorZero(h);
    }
  }

  /** Of two keys with the same blocks whose tails are the same but for zeros at the end, the hashes are the same
      exactly when the keys are: the length tells them apart. */
  lemma LengthCounts(seed: bv32, a: Key, m: bv32, b: Key, k: bv32)
    requires Sized(a, m) && Sized(b, k)
    requires SameButZeros(a, b, |a| / 4)
    ensures Hash(seed, a, m) == Hash(seed, b, k) <==> a == b
  {
    hide Fmix, Unfmix, Xor, Mix, Word, Step, Tailed, Sized;
    var n := |a| / 4;
    var t, t' := a[4 * n..], b[4 * n..];
    SamePrefix(seed, a, b, n);
    var h := Body(seed, a, n);
    TailedPadded(h, t);
    TailedPadded(h, t');
    SizedOnce(a, m, b, k);
    LengthsApart(Tailed(h, t), m, k);
    SameKeys(a, b, n);
  }

  lemma SameKeys(a: Key, b: Key, n: nat)
    requires SameButZeros(a, b, n)
    ensures |a| == |b| <==> a == b
  {
    var t, t' := a[4 * n..], b[4 * n..];
    assert a == a[..4 * n] + t && b == b[..4 * n] + t';
    assert t == Padded(t)[..|t|] && t' == Padded(t')[..|t'|];
  }

  lemma LengthsApart(x: bv32, m: bv32, n: bv32)
    ensures Fmix(Xor(x, m)) == Fmix(Xor(x, n)) <==> m == n
  {
    hide Fmix, Unfmix, Xor;
    FmixInverse(Xor(x, m));
    FmixInverse(Xor(x, n));
    XorXor(x, m);
    XorXor(x, n);
  }

  lemma {:induction false} SamePrefix(seed: bv32, a: seq<bv8>, b: seq<bv8>, n: nat)
    requires 4 * n <= |a| && 4 * n <= |b| && a[..4 * n] == b[..4 * n]
    ensures Body(seed, a, n) == Body(seed, b, n)
  {
    hide Step, Word;
    if n > 0 {
      assert a[..4 * n][..4 * (n - 1)] == a[..4 * (n - 1)] && b[..4 * n][..4 * (n - 1)] == b[..4 * (n - 1)];
      SamePrefix(seed, a, b, n - 1);
      assert forall i | 0 <= i < 4 * n :: a[i] == a[..4 * n][i] && b[i] == b[..4 * n][i];
    }
  }

  /** So a zero byte more is another hash, wherever it does not complete a block. */
  lemma ZeroAppended(seed: bv32, key: Key, m: bv32, n: bv32)
    requires |key| % 4 != 3 && Sized(key, m) && Sized(key + [0], n)
    ensures Hash(seed, key + [0], n) != Hash(seed, key, m)
  {
    hide Hash, Sized;
    var b := |key| / 4;
    var more := key + [0];
    assert more[..4 * b] == key[..4 * b] && more[4 * b..] == key[4 * b..] + [0];
    LengthCounts(seed, key, m, more, n);
  }

  lemma EmptyKey(seed: bv32)
    ensures Hash(seed, [], 0) == Fmix(seed)
  {
    hide Fmix, Xor;
    XorZero(seed);
  }

  // ----- published values

  lemma EmptyAnswers()
    ensures Hash(0, [], 0) == 0 && Hash(1, [], 0) == 0x514e28b7 && Hash(0xffff_ffff, [], 0) == 0x81f16f39
  {
    hide Hash;
    EmptyKey(0);
    EmptyKey(1);
    EmptyKey(0xffff_ffff);
  }

  const HELLO: seq<bv8> := [0x48, 0x65, 0x6c, 0x6c, 0x6f, 0x2c, 0x20, 0x77, 0x6f, 0x72, 0x6c, 0x64, 0x21]

  lemma HelloWords()
    ensures BlockAt(HELLO, 0) == 0x6c6c6548 && BlockAt(HELLO, 1) == 0x77202c6f && BlockAt(HELLO, 2) == 0x646c726f
    ensures TailWord(HELLO[12..]) == 0x21
  {
  }

  lemma HelloSteps()
    ensures Step(0x9747b28c, 0x6c6c6548) == 0xdae4c92e
    ensures Step(0xdae4c92e, 0x77202c6f) == 0x71c6b43c
    ensures Step(0x71c6b43c, 0x646c726f) == 0x3bd692af
    ensures Xor(Xor(0x3bd692af, Mix(0x21)), 13) == 0x9788c381 && Fmix(0x9788c381) == 0x24884cba
  {
  }

  /** "Hello, world!" with seed 0x9747b28c. */
  lemma HelloAnswer()
    ensures Hash(0x9747b28c, HELLO, 13) == 0x24884cba
  {
    hide Step, BlockAt, TailWord, Mix, Fmix, Xor;
    HelloWords();
    HelloSteps();
    assert |HELLO| / 4 == 3;
    assert Body(0x9747b28c, HELLO, 0) == 0x9747b28c;
    assert Body(0x9747b28c, HELLO, 1) == 0xdae4c92e;
    assert Body(0x9747b28c, HELLO, 2) == 0x71c6b43c;
    assert Body(0x9747b28c, HELLO, 3) == 0x3bd692af;
  }
}
