/**
  MurmurHash3 (32 bit). Every mixing step can be undone, so the hash is a bijection in the seed and
  in any one block, and injective in the tail.
  */
module Murmur {

  type Word = bv32
  type Byte = bv8

  // ---- the elementary steps, each with the step that undoes it

  function Xor(a: Word, b: Word): Word { a ^ b }

  lemma XorUnfolded(a: Word, b: Word)
    ensures Xor(a ^ b, b) == a && Xor(a ^ b, a) == b && Xor(b, a ^ b) == a
  {
  }

  lemma XorBack(a: Word, b: Word)
    ensures Xor(Xor(a, b), b) == a && Xor(Xor(a, b), a) == b
    ensures Xor(b, Xor(a, b)) == a && Xor(a, b) == Xor(b, a)
  {
    XorUnfolded(a, b);
  }

  function Rotl15(x: Word): Word { (x << 15) | (x >> 17) }
  function Rotl17(x: Word): Word { (x << 17) | (x >> 15) }

  lemma Rotl15Unfolded(x: Word)
    ensures Rotl17((x << 15) | (x >> 17)) == x
  {
  }

  lemma Rotl17Unfolded(x: Word)
    ensures Rotl15((x << 17) | (x >> 15)) == x
  {
  }

  lemma Rotl15Back(x: Word)
    ensures Rotl17(Rotl15(x)) == x
  {
    hide Rotl17;
    Rotl15Unfolded(x);
  }

  lemma Rotl17Back(x: Word)
    ensures Rotl15(Rotl17(x)) == x
  {
    hide Rotl15;
    Rotl17Unfolded(x);
  }

  function Rotl13(x: Word): Word { (x << 13) | (x >> 19) }
  function Rotl19(x: Word): Word { (x << 19) | (x >> 13) }

  lemma Rotl13Unfolded(x: Word)
    ensures Rotl19((x << 13) | (x >> 19)) == x
  {
  }

  lemma Rotl19Unfolded(x: Word)
    ensures Rotl13((x << 19) | (x >> 13)) == x
  {
  }

  lemma Rotl13Back(x: Word)
    ensures Rotl19(Rotl13(x)) == x
  {
    hide Rotl19;
    Rotl13Unfolded(x);
  }

  lemma Rotl19Back(x: Word)
    ensures Rotl13(Rotl19(x)) == x
  {
    hide Rotl13;
    Rotl19Unfolded(x);
  }

  // multiplication by an odd constant, and by its inverse modulo 2^32

  function TimesC1(x: Word): Word { x * 0xcc9e2d51 }
  function OverC1(x: Word): Word { x * 0xdee13bb1 }

  lemma TimesC1Unfolded(x: Word)
    ensures OverC1(x * 0xcc9e2d51) == x
  {
  }

  lemma OverC1Unfolded(x: Word)
    ensures TimesC1(x * 0xdee13bb1) == x
  {
  }

  lemma TimesC1Back(x: Word)
    ensures OverC1(TimesC1(x)) == x
  {
    hide OverC1;
    TimesC1Unfolded(x);
  }

  lemma OverC1Back(x: Word)
    ensures TimesC1(OverC1(x)) == x
  {
    hide TimesC1;
    OverC1Unfolded(x);
  }

  function TimesC2(x: Word): Word { x * 0x1b873593 }
  function OverC2(x: Word): Word { x * 0x56ed309b }

  lemma TimesC2Unfolded(x: Word)
    ensures OverC2(x * 0x1b873593) == x
  {
  }

  lemma OverC2Unfolded(x: Word)
    ensures TimesC2(x * 0x56ed309b) == x
  {
  }

  lemma TimesC2Back(x: Word)
    ensures OverC2(TimesC2(x)) == x
  {
    hide OverC2;
    TimesC2Unfolded(x);
  }

  lemma OverC2Back(x: Word)
    ensures TimesC2(OverC2(x)) == x
  {
    hide TimesC2;
    OverC2Unfolded(x);
  }

  function TimesF1(x: Word): Word { x * 0x85ebca6b }
  function OverF1(x: Word): Word { x * 0xa5cb9243 }

  lemma TimesF1Unfolded(x: Word)
    ensures OverF1(x * 0x85ebca6b) == x
  {
  }

  lemma OverF1Unfolded(x: Word)
    ensures TimesF1(x * 0xa5cb9243) == x
  {
  }

  lemma TimesF1Back(x: Word)
    ensures OverF1(TimesF1(x)) == x
  {
    hide OverF1;
    TimesF1Unfolded(x);
  }

  lemma OverF1Back(x: Word)
    ensures TimesF1(OverF1(x)) == x
  {
    hide TimesF1;
    OverF1Unfolded(x);
  }

  function TimesF2(x: Word): Word { x * 0xc2b2ae35 }
  function OverF2(x: Word): Word { x * 0x7ed1b41d }

  lemma TimesF2Unfolded(x: Word)
    ensures OverF2(x * 0xc2b2ae35) == x
  {
  }

  lemma OverF2Unfolded(x: Word)
    ensures TimesF2(x * 0x7ed1b41d) == x
  {
  }

  lemma TimesF2Back(x: Word)
    ensures OverF2(TimesF2(x)) == x
  {
    hide OverF2;
    TimesF2Unfolded(x);
  }

  lemma OverF2Back(x: Word)
    ensures TimesF2(OverF2(x)) == x
  {
    hide TimesF2;
    OverF2Unfolded(x);
  }

  function Spread(x: Word): Word { x * 5 + 0xe6546b64 }
  function Unspread(x: Word): Word { (x - 0xe6546b64) * 0xcccccccd }

  lemma SpreadUnfolded(x: Word)
    ensures Unspread(x * 5 + 0xe6546b64) == x
  {
  }

  lemma UnspreadUnfolded(x: Word)
    ensures Spread((x - 0xe6546b64) * 0xcccccccd) == x
  {
  }

  lemma SpreadBack(x: Word)
    ensures Unspread(Spread(x)) == x
  {
    hide Unspread;
    SpreadUnfolded(x);
  }

  lemma UnspreadBack(x: Word)
    ensures Spread(Unspread(x)) == x
  {
    hide Spread;
    UnspreadUnfolded(x);
  }

  function Fold16(x: Word): Word { x ^ (x >> 16) }

  lemma Fold16Unfolded(x: Word)
    ensures Fold16(x ^ (x >> 16)) == x
  {
  }

  lemma Fold16Back(x: Word)
    ensures Fold16(Fold16(x)) == x
  {
    Fold16Unfolded(x);
  }

  function Fold13(x: Word): Word { x ^ (x >> 13) }
  function Unfold13(x: Word): Word { x ^ (x >> 13) ^ (x >> 26) }

  lemma Fold13Unfolded(x: Word)
    ensures Unfold13(x ^ (x >> 13)) == x
  {
  }

  lemma Unfold13Unfolded(x: Word)
    ensures Fold13(x ^ (x >> 13) ^ (x >> 26)) == x
  {
  }

  lemma Fold13Back(x: Word)
    ensures Unfold13(Fold13(x)) == x
  {
    hide Unfold13;
    Fold13Unfolded(x);
  }

  lemma Unfold13Back(x: Word)
    ensures Fold13(Unfold13(x)) == x
  {
    hide Fold13;
    Unfold13Unfolded(x);
  }

  // ---- blocks and states

  /** The scrambling of one block before it is mixed in. */
  function Scramble(k: Word): Word
  {
    TimesC2(Rotl15(TimesC1(k)))
  }

  function Unscramble(k: Word): Word
  {
    OverC1(Rotl17(OverC2(k)))
  }

  lemma ScrambleBack(k: Word)
    ensures Unscramble(Scramble(k)) == k && Scramble(Unscramble(k)) == k
  {
    hide Rotl15, Rotl17, TimesC1, OverC1, TimesC2, OverC2;
    TimesC1Back(k);
    Rotl15Back(TimesC1(k));
    TimesC2Back(Rotl15(TimesC1(k)));
    OverC2Back(k);
    Rotl17Back(OverC2(k));
    OverC1Back(Rotl17(OverC2(k)));
  }

  /** Mixes one block into the state. */
  function Mix(h: Word, k: Word): Word
  {
    Spread(Rotl13(Xor(h, Scramble(k))))
  }

  /** The state before block `k` was mixed in. */
  function Unmix(h: Word, k: Word): Word
  {
    Xor(Rotl19(Unspread(h)), Scramble(k))
  }

  /** The block that leads from one state to another. */
  function BlockBetween(before: Word, after: Word): Word
  {
    Unscramble(Xor(Rotl19(Unspread(after)), before))
  }

  lemma MixBack(h: Word, k: Word)
    ensures Unmix(Mix(h, k), k) == h && Mix(Unmix(h, k), k) == h
    ensures BlockBetween(h, Mix(h, k)) == k
  {
    hide Xor, Rotl13, Rotl19, Spread, Unspread, Scramble, Unscramble;
    var s := Scramble(k);
    SpreadBack(Rotl13(Xor(h, s)));
    Rotl13Back(Xor(h, s));
    XorBack(h, s);
    ScrambleBack(k);
    XorBack(Rotl19(Unspread(h)), s);
    Rotl19Back(Unspread(h));
    UnspreadBack(h);
  }

  lemma BlockBetweenWorks(h: Word, after: Word)
    ensures Mix(h, BlockBetween(h, after)) == after
  {
    hide Xor, Rotl13, Rotl19, Spread, Unspread, Scramble, Unscramble;
    var r := Rotl19(Unspread(after));
    ScrambleBack(Xor(r, h));
    XorBack(r, h);
    Rotl19Back(Unspread(after));
    UnspreadBack(after);
  }

  /** The final avalanche. */
  function Fmix(h: Word): Word
  {
    Fold16(TimesF2(Fold13(TimesF1(Fold16(h)))))
  }

  function Unfmix(h: Word): Word
  {
    Fold16(OverF1(Unfold13(OverF2(Fold16(h)))))
  }

  lemma FmixBack(h: Word)
    ensures Unfmix(Fmix(h)) == h && Fmix(Unfmix(h)) == h
  {
    hide Fold16, TimesF1, OverF1, TimesF2, OverF2, Fold13, Unfold13;
    var a := TimesF1(Fold16(h));
    Fold16Back(h);
    TimesF1Back(Fold16(h));
    Fold13Back(a);
    TimesF2Back(Fold13(a));
    Fold16Back(TimesF2(Fold13(a)));
    var b := OverF2(Fold16(h));
    OverF2Back(Fold16(h));
    Unfold13Back(b);
    OverF1Back(Unfold13(b));
    Fold16Back(OverF1(Unfold13(b)));
  }

  // ---- keys

  /** Four bytes as a little-endian word. */
  function Block(b0: Byte, b1: Byte, b2: Byte, b3: Byte): Word
  {
    (b0 as Word) | ((b1 as Word) << 8) | ((b2 as Word) << 16) | ((b3 as Word) << 24)
  }

  lemma BlockInjective(a0: Byte, a1: Byte, a2: Byte, a3: Byte, b0: Byte, b1: Byte, b2: Byte, b3: Byte)
    requires Block(a0, a1, a2, a3) == Block(b0, b1, b2, b3)
    ensures a0 == b0 && a1 == b1 && a2 == b2 && a3 == b3
  {
  }

  function BlockAt(key: seq<Byte>, i: nat): Word
    requires 4 * i + 4 <= |key|
  {
    Block(key[4 * i], key[4 * i + 1], key[4 * i + 2], key[4 * i + 3])
  }

  /** The state after the first `n` blocks. */
  function Body(key: seq<Byte>, seed: Word, n: nat): Word
    requires 4 * n <= |key|
  {
    if n == 0 then seed else Mix(Body(key, seed, n - 1), BlockAt(key, n - 1))
  }

  function TailStart(key: seq<Byte>): nat
  {
    |key| - |key| % 4
  }

  /** The last one to three bytes as a word. */
  function TailWord(tail: seq<Byte>): Word
    requires |tail| <= 3
  {
    var k0 := if |tail| >= 3 then Xor(0, (tail[2] as Word) << 16) else 0;
    var k1 := if |tail| >= 2 then Xor(k0, (tail[1] as Word) << 8) else k0;
    if |tail| >= 1 then Xor(k1, tail[0] as Word) else k1
  }

  function MixTail(h: Word, tail: seq<Byte>): Word
    requires |tail| <= 3
  {
    if tail == [] then h else Xor(h, Scramble(TailWord(tail)))
  }

  function ByteOf(n: nat): Byte
    requires n < 256
  {
    n as Byte
  }

  /** A length as a 32-bit word, byte by byte. */
  function Length(n: nat): Word
    requires n < 0x8000_0000
  {
    Block(ByteOf(n % 256), ByteOf(n / 256 % 256), ByteOf(n / 65536 % 256), ByteOf(n / 16777216))
  }

  function Hash(key: seq<Byte>, seed: Word): Word
    requires |key| < 0x8000_0000
  {
    Fmix(Xor(MixTail(Body(key, seed, |key| / 4), key[TailStart(key)..]), Length(|key|)))
  }

  /** The program: blocks, then the tail by falling through the cases, then finalization. */
  method MurmurHash3(key: seq<Byte>, seed: Word) returns (h: Word)
    requires |key| < 0x8000_0000
    ensures h == Hash(key, seed)
  {
    hide Mix, BlockAt, Fmix, MixTail, Xor, Length;
    var nblocks := |key| / 4;
    h := seed;
    var i := -nblocks;
    while i != 0
      invariant -nblocks <= i <= 0 && h == Body(key, seed, nblocks + i)
    {
      var k := BlockAt(key, nblocks + i);
      h := Mix(h, k);
      i := i + 1;
    }

    h := TailCases(h, key[nblocks * 4..]);
    h := Xor(h, Length(|key|));
    h := Fmix(h);
  }

  /** The cases 3, 2 and 1, each falling through to the next. */
  method TailCases(state: Word, tail: seq<Byte>) returns (h: Word)
    requires |tail| <= 3
    ensures h == MixTail(state, tail)
  {
    hide Scramble, Xor;
    h := state;
    var k: Word := 0;
    if |tail| >= 3 {
      k := Xor(k, (tail[2] as Word) << 16);
    }
    if |tail| >= 2 {
      k := Xor(k, (tail[1] as Word) << 8);
    }
    if |tail| >= 1 {
      k := Xor(k, tail[0] as Word);
      h := Xor(h, Scramble(k));
    }
  }

  // ---- what cannot collide

  lemma FinishInjective(x: Word, y: Word, l: Word)
    requires Fmix(Xor(x, l)) == Fmix(Xor(y, l))
    ensures x == y
  {
    hide Fmix, Unfmix, Xor;
    FmixBack(Xor(x, l));
    FmixBack(Xor(y, l));
    XorBack(x, l);
    XorBack(y, l);
  }

  lemma TailInjective(x: Word, y: Word, tail: seq<Byte>)
    requires |tail| <= 3 && MixTail(x, tail) == MixTail(y, tail)
    ensures x == y
  {
    hide Xor, Scramble, TailWord;
    if tail != [] {
      XorBack(x, Scramble(TailWord(tail)));
      XorBack(y, Scramble(TailWord(tail)));
    }
  }

  /** Equal blocks keep different states different. */
  lemma {:induction false} BodyInjective(a: seq<Byte>, b: seq<Byte>, s: Word, t: Word, m: nat, n: nat)
    requires |a| == |b| && m <= n && 4 * n <= |a| && a[4 * m..4 * n] == b[4 * m..4 * n]
    requires Body(a, s, n) == Body(b, t, n)
    ensures Body(a, s, m) == Body(b, t, m)
  {
    if m < n {
      SameBlock(a, b, m, n, n - 1);
      hide Mix, Unmix, BlockAt;
      MixBack(Body(a, s, n - 1), BlockAt(a, n - 1));
      MixBack(Body(b, t, n - 1), BlockAt(b, n - 1));
      assert a[4 * m..4 * n][..4 * (n - 1 - m)] == a[4 * m..4 * (n - 1)];
      assert b[4 * m..4 * n][..4 * (n - 1 - m)] == b[4 * m..4 * (n - 1)];
      BodyInjective(a, b, s, t, m, n - 1);
    }
  }

  lemma SameBlock(a: seq<Byte>, b: seq<Byte>, m: nat, n: nat, i: nat)
    requires |a| == |b| && m <= i < n && 4 * n <= |a| && a[4 * m..4 * n] == b[4 * m..4 * n]
    ensures BlockAt(a, i) == BlockAt(b, i)
  {
    hide Block;
    var p, q := a[4 * m..4 * n], b[4 * m..4 * n];
    var o := 4 * (i - m);
    assert p[o] == q[o] && p[o + 1] == q[o + 1] && p[o + 2] == q[o + 2] && p[o + 3] == q[o + 3];
  }

  /** Equal blocks lead on from equal states to equal states. */
  lemma {:induction false} BodyForward(a: seq<Byte>, b: seq<Byte>, s: Word, t: Word, m: nat, n: nat)
    requires |a| == |b| && m <= n && 4 * n <= |a| && a[4 * m..4 * n] == b[4 * m..4 * n]
    requires Body(a, s, m) == Body(b, t, m)
    ensures Body(a, s, n) == Body(b, t, n)
  {
    if m < n {
      SameBlock(a, b, m, n, n - 1);
      assert a[4 * m..4 * n][..4 * (n - 1 - m)] == a[4 * m..4 * (n - 1)];
      assert b[4 * m..4 * n][..4 * (n - 1 - m)] == b[4 * m..4 * (n - 1)];
      hide Mix, BlockAt;
      BodyForward(a, b, s, t, m, n - 1);
    }
  }

  lemma SameBody(a: seq<Byte>, b: seq<Byte>, seed: Word, n: nat)
    requires |a| == |b| && 4 * n <= |a| && a[..4 * n] == b[..4 * n]
    ensures Body(a, seed, n) == Body(b, seed, n)
  {
    assert a[4 * 0..4 * n] == a[..4 * n] && b[4 * 0..4 * n] == b[..4 * n];
    assert Body(a, seed, 0) == Body(b, seed, 0);
    hide Body;
    BodyForward(a, b, seed, seed, 0, n);
  }

  /** Equal states before the same tail finish equal. */
  lemma BodyToHash(a: seq<Byte>, b: seq<Byte>, s: Word, t: Word)
    requires |a| == |b| < 0x8000_0000 && a[TailStart(a)..] == b[TailStart(b)..]
    requires Body(a, s, |a| / 4) == Body(b, t, |b| / 4)
    ensures Hash(a, s) == Hash(b, t)
  {
    hide Body, MixTail, Fmix, Xor, Length;
  }

  /** Before finalization: equal hashes of keys with equal tails come from equal states. */
  lemma HashToBody(a: seq<Byte>, b: seq<Byte>, s: Word, t: Word)
    requires |a| == |b| < 0x8000_0000 && a[TailStart(a)..] == b[TailStart(b)..] && Hash(a, s) == Hash(b, t)
    ensures Body(a, s, |a| / 4) == Body(b, t, |b| / 4)
  {
    hide Fmix, Xor, MixTail, Body, Length;
    var tail, n := a[TailStart(a)..], |a| / 4;
    FinishInjective(MixTail(Body(a, s, n), tail), MixTail(Body(b, t, n), tail), Length(|a|));
    TailInjective(Body(a, s, n), Body(b, t, n), tail);
  }

  /** For a fixed key, different seeds give different hashes. */
  lemma SeedInjective(key: seq<Byte>, s: Word, t: Word)
    requires |key| < 0x8000_0000 && Hash(key, s) == Hash(key, t)
    ensures s == t
  {
    hide Hash;
    HashToBody(key, key, s, t);
    BodyInjective(key, key, s, t, 0, |key| / 4);
  }

  /** The state that leads to `h` after the first `n` blocks. */
  function Unbody(key: seq<Byte>, h: Word, n: nat): Word
    requires 4 * n <= |key|
    decreases n
  {
    if n == 0 then h else Unbody(key, Unmix(h, BlockAt(key, n - 1)), n - 1)
  }

  lemma {:induction false} UnbodyBack(key: seq<Byte>, h: Word, n: nat)
    requires 4 * n <= |key|
    ensures Body(key, Unbody(key, h, n), n) == h
    decreases n
  {
    if n > 0 {
      hide Mix, Unmix, BlockAt;
      UnbodyBack(key, Unmix(h, BlockAt(key, n - 1)), n - 1);
      MixBack(h, BlockAt(key, n - 1));
    }
  }

  /** The seed under which `key` hashes to `target`. */
  function SeedFor(key: seq<Byte>, target: Word): Word
    requires |key| < 0x8000_0000
  {
    Unbody(key, MixTail(Xor(Unfmix(target), Length(|key|)), key[TailStart(key)..]), |key| / 4)
  }

  /** For a fixed key every hash value is taken, by exactly one seed. */
  lemma SeedBijective(key: seq<Byte>, target: Word, seed: Word)
    requires |key| < 0x8000_0000
    ensures Hash(key, SeedFor(key, target)) == target
    ensures Hash(key, seed) == target ==> seed == SeedFor(key, target)
  {
    var tail, l := key[TailStart(key)..], Length(|key|);
    hide Fmix, Unfmix, Xor, Body, Unbody, Scramble, TailWord, Length;
    var x := Xor(Unfmix(target), l);
    UnbodyBack(key, MixTail(x, tail), |key| / 4);
    if tail != [] {
      XorBack(x, Scramble(TailWord(tail)));
    }
    XorBack(Unfmix(target), l);
    FmixBack(target);
    assert Hash(key, SeedFor(key, target)) == target;
    hide Hash, SeedFor;
    if Hash(key, seed) == target {
      SeedInjective(key, seed, SeedFor(key, target));
    }
  }

  /** Keys of one length that differ in a single block never collide, whatever the seed. */
  lemma OneBlockInjective(a: seq<Byte>, b: seq<Byte>, seed: Word, j: nat)
    requires |a| == |b| < 0x8000_0000 && j < |a| / 4
    requires a[..4 * j] == b[..4 * j] && a[4 * j + 4..] == b[4 * j + 4..]
    requires Hash(a, seed) == Hash(b, seed)
    ensures a == b
  {
    hide Hash, Mix, Block;
    var n := |a| / 4;
    AfterBlock(a, b, 4 * j + 4, 4 * n);
    assert TailStart(a) == 4 * n;
    HashToBody(a, b, seed, seed);
    BodyInjective(a, b, seed, seed, j + 1, n);
    SameBody(a, b, seed, j);
    MixBack(Body(a, seed, j), BlockAt(a, j));
    MixBack(Body(b, seed, j), BlockAt(b, j));
    BlockInjective(a[4 * j], a[4 * j + 1], a[4 * j + 2], a[4 * j + 3], b[4 * j], b[4 * j + 1], b[4 * j + 2], b[4 * j + 3]);
    hide Body, BlockAt;
    Reassemble(a, b, 4 * j);
  }

  /** The four bytes of a word, lowest first. */
  function BytesOf(w: Word): (b: seq<Byte>)
    ensures |b| == 4
  {
    [(w & 0xff) as Byte, ((w >> 8) & 0xff) as Byte, ((w >> 16) & 0xff) as Byte, (w >> 24) as Byte]
  }

  lemma BytesOfBack(w: Word)
    ensures Block(BytesOf(w)[0], BytesOf(w)[1], BytesOf(w)[2], BytesOf(w)[3]) == w
  {
  }

  /** The key with another word as its block number `j`. */
  function WithBlock(key: seq<Byte>, j: nat, w: Word): (k: seq<Byte>)
    requires j < |key| / 4
    ensures |k| == |key|
  {
    key[..4 * j] + BytesOf(w) + key[4 * j + 4..]
  }

  /** The word to put there for the key to hash to `target`: it leads from the state before it to the
      state that the seed for `target` would have led to. */
  function WordFor(key: seq<Byte>, seed: Word, j: nat, target: Word): Word
    requires |key| < 0x8000_0000 && j < |key| / 4
  {
    BlockBetween(Body(key, seed, j), Body(key, SeedFor(key, target), j + 1))
  }

  lemma WithBlockFacts(key: seq<Byte>, j: nat, w: Word)
    requires j < |key| / 4
    ensures var k := WithBlock(key, j, w);
      && k[..4 * j] == key[..4 * j] && k[4 * j + 4..] == key[4 * j + 4..] && BlockAt(k, j) == w
  {
    BytesOfBack(w);
    hide BytesOf, Block;
    var k, b := WithBlock(key, j, w), BytesOf(w);
    assert k[4 * j] == b[0] && k[4 * j + 1] == b[1] && k[4 * j + 2] == b[2] && k[4 * j + 3] == b[3];
  }

  /** For every key, seed and block position, every hash value is taken by exactly one block. */
  lemma BlockBijective(key: seq<Byte>, seed: Word, j: nat, target: Word, w: Word)
    requires |key| < 0x8000_0000 && j < |key| / 4
    ensures Hash(WithBlock(key, j, WordFor(key, seed, j, target)), seed) == target
    ensures Hash(WithBlock(key, j, w), seed) == target ==> w == WordFor(key, seed, j, target)
  {
    var v := WordFor(key, seed, j, target);
    WordForWorks(key, seed, j, target);
    WithBlockFacts(key, j, v);
    WithBlockFacts(key, j, w);
    hide Hash, WithBlock, WordFor, BlockAt;
    if Hash(WithBlock(key, j, w), seed) == target {
      OneBlockInjective(WithBlock(key, j, w), WithBlock(key, j, v), seed, j);
    }
  }

  lemma WordForWorks(key: seq<Byte>, seed: Word, j: nat, target: Word)
    requires |key| < 0x8000_0000 && j < |key| / 4
    ensures Hash(WithBlock(key, j, WordFor(key, seed, j, target)), seed) == target
  {
    WithBlockFacts(key, j, WordFor(key, seed, j, target));
    hide WithBlock, SeedFor, Hash, Body, BlockAt, BlockBetween;
    ReplacedBlock(key, WithBlock(key, j, WordFor(key, seed, j, target)), seed, SeedFor(key, target), j);
    SeedBijective(key, target, seed);
  }

  lemma ReplacedBlock(key: seq<Byte>, k: seq<Byte>, seed: Word, s: Word, j: nat)
    requires |k| == |key| < 0x8000_0000 && j < |key| / 4
    requires k[..4 * j] == key[..4 * j] && k[4 * j + 4..] == key[4 * j + 4..]
    requires BlockAt(k, j) == BlockBetween(Body(key, seed, j), Body(key, s, j + 1))
    ensures Hash(k, seed) == Hash(key, s)
  {
    hide Hash, Body, BlockAt, BlockBetween;
    StateReached(key, k, seed, s, j);
    AfterBlock(k, key, 4 * j + 4, TailStart(key));
    BodyForward(k, key, seed, s, j + 1, |key| / 4);
    BodyToHash(k, key, seed, s);
  }

  lemma StateReached(key: seq<Byte>, k: seq<Byte>, seed: Word, s: Word, j: nat)
    requires |k| == |key| && j < |key| / 4 && k[..4 * j] == key[..4 * j]
    requires BlockAt(k, j) == BlockBetween(Body(key, seed, j), Body(key, s, j + 1))
    ensures Body(k, seed, j + 1) == Body(key, s, j + 1)
  {
    assert Body(k, seed, j + 1) == Mix(Body(k, seed, j), BlockAt(k, j));
    hide Mix, BlockAt, BlockBetween, Body;
    SameBody(k, key, seed, j);
    BlockBetweenWorks(Body(key, seed, j), Body(key, s, j + 1));
  }

  lemma AfterBlock(a: seq<Byte>, b: seq<Byte>, from: nat, to: nat)
    requires |a| == |b| && from <= to <= |a| && a[from..] == b[from..]
    ensures a[from..to] == b[from..to] && a[to..] == b[to..]
  {
    assert a[from..to] == a[from..][..to - from] && b[from..to] == b[from..][..to - from];
    assert a[to..] == a[from..][to - from..] && b[to..] == b[from..][to - from..];
  }

  lemma Reassemble(a: seq<Byte>, b: seq<Byte>, p: nat)
    requires |a| == |b| && p + 4 <= |a| && a[..p] == b[..p] && a[p + 4..] == b[p + 4..]
    requires a[p] == b[p] && a[p + 1] == b[p + 1] && a[p + 2] == b[p + 2] && a[p + 3] == b[p + 3]
    ensures a == b
  {
    assert a == a[..p] + [a[p], a[p + 1], a[p + 2], a[p + 3]] + a[p + 4..];
    assert b == b[..p] + [b[p], b[p + 1], b[p + 2], b[p + 3]] + b[p + 4..];
  }

  lemma Tail1(a0: Byte, b0: Byte)
    requires Xor(0, a0 as Word) == Xor(0, b0 as Word)
    ensures a0 == b0
  {
  }

  lemma Tail2(a0: Byte, a1: Byte, b0: Byte, b1: Byte)
    requires Xor(Xor(0, (a1 as Word) << 8), a0 as Word) == Xor(Xor(0, (b1 as Word) << 8), b0 as Word)
    ensures a0 == b0 && a1 == b1
  {
  }

  lemma Tail3(a0: Byte, a1: Byte, a2: Byte, b0: Byte, b1: Byte, b2: Byte)
    requires Xor(Xor(Xor(0, (a2 as Word) << 16), (a1 as Word) << 8), a0 as Word)
          == Xor(Xor(Xor(0, (b2 as Word) << 16), (b1 as Word) << 8), b0 as Word)
    ensures a0 == b0 && a1 == b1 && a2 == b2
  {
  }

  lemma TailWordInjective(a: seq<Byte>, b: seq<Byte>)
    requires |a| == |b| <= 3 && TailWord(a) == TailWord(b)
    ensures a == b
  {
    hide Xor;
    if |a| == 1 {
      Tail1(a[0], b[0]);
    } else if |a| == 2 {
      Tail2(a[0], a[1], b[0], b[1]);
    } else if |a| == 3 {
      Tail3(a[0], a[1], a[2], b[0], b[1], b[2]);
    }
  }

  /** Keys of one length that differ in the tail only never collide, whatever the seed. */
  lemma TailOnlyInjective(a: seq<Byte>, b: seq<Byte>, seed: Word)
    requires |a| == |b| < 0x8000_0000 && a[..TailStart(a)] == b[..TailStart(b)]
    requires Hash(a, seed) == Hash(b, seed)
    ensures a == b
  {
    hide Fmix, Xor, Scramble, Length, TailWord;
    var n, p, q := |a| / 4, a[TailStart(a)..], b[TailStart(b)..];
    SameBody(a, b, seed, n);
    var h := Body(a, seed, n);
    hide Body;
    FinishInjective(MixTail(h, p), MixTail(h, q), Length(|a|));
    if p != [] {
      XorBack(h, Scramble(TailWord(p)));
      XorBack(h, Scramble(TailWord(q)));
      ScrambleBack(TailWord(p));
      ScrambleBack(TailWord(q));
      TailWordInjective(p, q);
    }
    assert a == a[..TailStart(a)] + p && b == b[..TailStart(b)] + q;
  }

  // ---- the order of the blocks

  /** Blocks are taken first to last: the state after the first part is the seed for the second. */
  lemma {:induction false} BodyChains(a: seq<Byte>, b: seq<Byte>, seed: Word, m: nat, n: nat)
    requires |a| == 4 * m && 4 * n <= |b|
    ensures Body(a + b, seed, m + n) == Body(b, Body(a, seed, m), n)
  {
    var all := a + b;
    if n == 0 {
      assert all[..|a|] == a;
      LongerSameBody(a, all, seed, m);
    } else {
      BodyChains(a, b, seed, m, n - 1);
      ShiftedBlock(a, b, m, n - 1);
      hide Mix, BlockAt;
    }
  }

  lemma ShiftedBlock(a: seq<Byte>, b: seq<Byte>, m: nat, i: nat)
    requires |a| == 4 * m && 4 * i + 4 <= |b|
    ensures BlockAt(a + b, m + i) == BlockAt(b, i)
  {
    hide Block;
  }

  // ---- the length

  function ByteValue(b: Byte): int
  {
    b as int
  }

  lemma ByteOfBack(n: nat)
    requires n < 256
    ensures ByteValue(n as Byte) == n
  {
  }

  lemma ByteOfInjective(m: nat, n: nat)
    requires m < 256 && n < 256 && ByteOf(m) == ByteOf(n)
    ensures m == n
  {
    ByteOfBack(m);
    ByteOfBack(n);
    hide ByteValue;
  }

  lemma LengthInjective(m: nat, n: nat)
    requires m < 0x8000_0000 && n < 0x8000_0000 && Length(m) == Length(n)
    ensures m == n
  {
    hide Block, ByteOf;
    BlockInjective(ByteOf(m % 256), ByteOf(m / 256 % 256), ByteOf(m / 65536 % 256), ByteOf(m / 16777216),
                   ByteOf(n % 256), ByteOf(n / 256 % 256), ByteOf(n / 65536 % 256), ByteOf(n / 16777216));
    ByteOfInjective(m % 256, n % 256);
    ByteOfInjective(m / 256 % 256, n / 256 % 256);
    ByteOfInjective(m / 65536 % 256, n / 65536 % 256);
    ByteOfInjective(m / 16777216, n / 16777216);
    FromBytes(m);
    FromBytes(n);
  }

  lemma FromBytes(n: nat)
    ensures n == n % 256 + 256 * (n / 256 % 256) + 65536 * (n / 65536 % 256) + 16777216 * (n / 16777216)
  {
    assert n / 65536 == n / 256 / 256 && n / 16777216 == n / 65536 / 256;
  }

  /** Keys of different lengths that reach the same state after body and tail hash differently. */
  lemma LengthMatters(a: seq<Byte>, b: seq<Byte>, s: Word, t: Word)
    requires |a| < 0x8000_0000 && |b| < 0x8000_0000 && |a| != |b|
    requires MixTail(Body(a, s, |a| / 4), a[TailStart(a)..]) == MixTail(Body(b, t, |b| / 4), b[TailStart(b)..])
    ensures Hash(a, s) != Hash(b, t)
  {
    var x := MixTail(Body(a, s, |a| / 4), a[TailStart(a)..]);
    var l, m := Length(|a|), Length(|b|);
    assert l != m by { if l == m { LengthInjective(|a|, |b|); } }
    hide Body, MixTail, Length, Fmix, Unfmix, Xor;
    FmixBack(Xor(x, l));
    FmixBack(Xor(x, m));
    XorBack(x, l);
    XorBack(x, m);
  }

  lemma ZeroTail(h: Word, tail: seq<Byte>)
    requires |tail| <= 2
    ensures MixTail(h, tail + [0]) == MixTail(h, tail)
  {
    ZeroWord(tail);
    XorZero(h);
    hide Scramble, Xor, TailWord;
  }

  lemma ZeroWord(tail: seq<Byte>)
    requires |tail| <= 2
    ensures TailWord(tail + [0]) == TailWord(tail)
    ensures tail == [] ==> TailWord(tail + [0]) == 0 && Scramble(0) == 0
  {
    var t := tail + [0];
    if |tail| == 0 {
      assert t == [0];
    } else if |tail| == 1 {
      assert t == [tail[0], 0] && tail == [tail[0]];
      ZeroSecond(tail[0]);
    } else {
      assert t == [tail[0], tail[1], 0] && tail == [tail[0], tail[1]];
      ZeroThird(tail[0], tail[1]);
    }
  }

  lemma ZeroSecond(a: Byte)
    ensures TailWord([a, 0]) == TailWord([a])
  {
  }

  lemma ZeroThird(a: Byte, b: Byte)
    ensures TailWord([a, b, 0]) == TailWord([a, b])
  {
  }

  lemma XorZero(h: Word)
    ensures Xor(h, 0) == h
  {
  }

  /** A zero byte at the end of a tail is not lost: it changes the hash. */
  lemma ZeroByteCounts(key: seq<Byte>, seed: Word)
    requires |key| < 0x7fff_ffff && |key| % 4 <= 2
    ensures Hash(key + [0], seed) != Hash(key, seed)
  {
    var b, n := key + [0], |key| / 4;
    assert |b| / 4 == n && TailStart(b) == TailStart(key) == 4 * n;
    assert b[4 * n..] == key[4 * n..] + [0] && b[..4 * n] == key[..4 * n];
    assert b[4 * 0..4 * n] == key[4 * 0..4 * n];
    hide Hash, Body, MixTail;
    ZeroTail(Body(key, seed, n), key[4 * n..]);
    LongerSameBody(key, b, seed, n);
    LengthMatters(key, b, seed, seed);
  }

  lemma {:induction false} LongerSameBody(a: seq<Byte>, b: seq<Byte>, seed: Word, n: nat)
    requires 4 * n <= |a| <= |b| && a == b[..|a|]
    ensures Body(a, seed, n) == Body(b, seed, n)
  {
    if n > 0 {
      LongerSameBody(a, b, seed, n - 1);
      assert BlockAt(a, n - 1) == BlockAt(b, n - 1);
      hide Mix, BlockAt;
    }
  }

  // ---- known values

  lemma SmallLengths()
    ensures Length(0) == 0 && Length(1) == 1 && Length(2) == 2 && Length(3) == 3 && Length(4) == 4
  {
    assert ByteOf(0) == 0 && ByteOf(1) == 1 && ByteOf(2) == 2 && ByteOf(3) == 3 && ByteOf(4) == 4;
    hide ByteOf;
  }

  lemma KnownEmpty()
    ensures Hash([], 1) == 0x514e28b7
  {
    SmallLengths();
    hide Length;
  }

  /** The hash of a single block. */
  lemma SingleBlock(key: seq<Byte>, seed: Word)
    requires |key| == 4
    ensures Hash(key, seed) == Fmix(Xor(Mix(seed, BlockAt(key, 0)), 4))
  {
    SmallLengths();
    assert Body(key, seed, 1) == Mix(Body(key, seed, 0), BlockAt(key, 0)) && key[4..] == [];
    hide Length, Fmix, Xor, Mix, BlockAt;
  }

  lemma KnownBlock()
    ensures Hash([0x21, 0x43, 0x65, 0x87], 0) == 0xf55b516b
  {
    var key: seq<Byte> := [0x21, 0x43, 0x65, 0x87];
    SingleBlock(key, 0);
    assert BlockAt(key, 0) == 0x87654321;
    hide Hash, BlockAt;
    assert Mix(0, 0x87654321) == 0xbb095db4;
    hide Mix;
  }

  lemma KnownSeeded()
    ensures Hash([0x21, 0x43, 0x65, 0x87], 0x5082edee) == 0x2362f9de
  {
    var key: seq<Byte> := [0x21, 0x43, 0x65, 0x87];
    SingleBlock(key, 0x5082edee);
    assert BlockAt(key, 0) == 0x87654321;
    hide Hash, BlockAt;
    assert Mix(0x5082edee, 0x87654321) == 0xe6546b64;
    hide Mix;
  }

  lemma KnownTail3()
    ensures Hash([0x21, 0x43, 0x65], 0) == 0x7e4a8634
  {
    SmallLengths();
    KnownWord3();
    var key: seq<Byte> := [0x21, 0x43, 0x65];
    assert key[0..] == key && TailStart(key) == 0;
    hide Length, TailWord;
    assert MixTail(0, key) == Xor(0, Scramble(0x654321));
    hide MixTail;
  }

  lemma KnownWord3()
    ensures TailWord([0x21, 0x43, 0x65]) == 0x654321
  {
  }

  lemma KnownTail2()
    ensures Hash([0x21, 0x43], 0) == 0xa0f7b07a
  {
    SmallLengths();
    KnownWord2();
    var key: seq<Byte> := [0x21, 0x43];
    assert key[0..] == key && TailStart(key) == 0;
    hide Length, TailWord;
    assert MixTail(0, key) == Xor(0, Scramble(0x4321));
    hide MixTail;
  }

  lemma KnownWord2()
    ensures TailWord([0x21, 0x43]) == 0x4321
  {
  }

  lemma KnownTail1()
    ensures Hash([0x21], 0) == 0x72661cf4
  {
    SmallLengths();
    hide Length;
  }
}
