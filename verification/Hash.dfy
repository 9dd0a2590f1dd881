/** The rolling hash of the match search: five bytes, and how it moves on by one. */
module Hashes {
  import opened Bits

  const LZMATCH: nat := 5
  const LZTABLESIZE: nat := 0x8000

  /** `a ^ b` */
  function Xor(a: nat, b: nat): nat {
    if a == 0 && b == 0 then 0 else 2 * Xor(a / 2, b / 2) + (if a % 2 != b % 2 then 1 else 0)
  }

  lemma {:induction false} XorBound(a: nat, b: nat, k: nat)
    requires a < Pow2(k) && b < Pow2(k)
    ensures Xor(a, b) < Pow2(k)
  {
    if k > 0 && !(a == 0 && b == 0) { XorBound(a / 2, b / 2, k - 1); }
  }

  lemma XorHalf(a: nat, b: nat)
    ensures Xor(a, b) / 2 == Xor(a / 2, b / 2) && Xor(a, b) % 2 == if a % 2 != b % 2 then 1 else 0
  {
  }

  lemma {:induction false} XorSwap(a: nat, b: nat, c: nat)
    ensures Xor(Xor(a, b), c) == Xor(Xor(a, c), b)
    decreases a + b + c
  {
    if a + b + c > 0 {
      XorSwap(a / 2, b / 2, c / 2);
      XorHalf(a, b);
      XorHalf(Xor(a, b), c);
      XorHalf(a, c);
      XorHalf(Xor(a, c), b);
      Halves(Xor(Xor(a, b), c), Xor(Xor(a, c), b));
    }
  }

  lemma Halves(x: nat, y: nat)
    requires x / 2 == y / 2 && x % 2 == y % 2
    ensures x == y
  {
  }

  lemma {:induction false} XorTwice(a: nat, b: nat)
    ensures Xor(Xor(a, b), b) == a
    decreases a + b
  {
    if a + b > 0 {
      XorTwice(a / 2, b / 2);
      XorHalf(a, b);
      XorHalf(Xor(a, b), b);
      Halves(Xor(Xor(a, b), b), a);
    }
  }

  lemma {:induction false} XorZero(a: nat)
    ensures Xor(0, a) == a
  {
    if a > 0 { XorZero(a / 2); }
  }

  function XorWord(a: uint32, b: uint32): (r: uint32)
  {
    Pow2Small();
    XorBound(a, b, 32);
    Xor(a, b)
  }

  /** A rotation by one bit: the highest becomes the lowest. */
  function Turn(x: uint32): uint32 { (2 * x) % WORD + x / 0x8000_0000 }

  /** ROTL: k rotations by one bit */
  function Rotl(x: uint32, k: nat): uint32
    decreases k
  {
    if k == 0 then x else Rotl(Turn(x), k - 1)
  }

  /** A bit at place k. */
  function TopBit(s: nat, k: nat): nat
    requires s <= 1
  {
    if s == 1 then Pow2(k) else 0
  }

  lemma HalfAt(x: nat, s: nat, k: nat)
    requires s <= 1 && 0 < k
    ensures (x + TopBit(s, k)) / 2 == x / 2 + TopBit(s, k - 1) && (x + TopBit(s, k)) % 2 == x % 2
  {
    assert TopBit(s, k) == 2 * TopBit(s, k - 1);
  }

  lemma XorBit(s: nat, t: nat)
    requires s <= 1 && t <= 1
    ensures Xor(s, t) == if s != t then 1 else 0
  {
    assert Xor(0, 0) == 0;
  }

  lemma HalfBound(x: nat, k: nat)
    requires 0 < k && x < Pow2(k)
    ensures x / 2 < Pow2(k - 1)
  {
  }

  lemma XorHighNone(x: nat, y: nat, s: nat, t: nat)
    requires x < Pow2(0) && y < Pow2(0) && s <= 1 && t <= 1
    ensures Xor(x + TopBit(s, 0), y + TopBit(t, 0)) == Xor(x, y) + TopBit(if s != t then 1 else 0, 0)
  {
    XorBit(s, t);
    XorBit(0, 0);
  }

  /** The highest bit does not touch the others. */
  lemma {:induction false} XorHigh(x: nat, y: nat, k: nat, s: nat, t: nat)
    requires x < Pow2(k) && y < Pow2(k) && s <= 1 && t <= 1
    ensures Xor(x + TopBit(s, k), y + TopBit(t, k)) == Xor(x, y) + TopBit(if s != t then 1 else 0, k)
    decreases k
  {
    hide Xor, TopBit, Pow2;
    if k == 0 {
      XorHighNone(x, y, s, t);
    } else {
      var a, b, z, u := x + TopBit(s, k), y + TopBit(t, k), Xor(x, y), if s != t then 1 else 0;
      HalfBound(x, k);
      HalfBound(y, k);
      XorHigh(x / 2, y / 2, k - 1, s, t);
      HalfAt(x, s, k);
      HalfAt(y, t, k);
      HalfAt(z, u, k);
      XorHalf(a, b);
      XorHalf(x, y);
      Halves(Xor(a, b), z + TopBit(u, k));
    }
  }

  lemma XorShift(x: nat, y: nat, s: nat, t: nat)
    requires s <= 1 && t <= 1
    ensures Xor(2 * x + s, 2 * y + t) == 2 * Xor(x, y) + if s != t then 1 else 0
  {
    assert (2 * x + s) / 2 == x && (2 * y + t) / 2 == y;
    XorBit(0, 0);
  }

  lemma TurnHigh(x: nat, s: nat)
    requires x < Pow2(31) && s <= 1
    ensures x + TopBit(s, 31) < WORD && Turn(x + TopBit(s, 31)) == 2 * x + s
  {
    HighPowers();
  }

  lemma HighPowers()
    ensures Pow2(31) == 0x8000_0000 && Pow2(32) == WORD
  {
    Pow2Small();
    assert Pow2(32) == 2 * Pow2(31);
  }

  lemma HighBit(x: uint32) returns (y: nat, s: nat)
    ensures s <= 1 && y < Pow2(31) && x == y + TopBit(s, 31)
  {
    HighPowers();
    hide Pow2;
    y, s := x % 0x8000_0000, x / 0x8000_0000;
  }

  lemma TurnXor(a: uint32, b: uint32)
    ensures Turn(XorWord(a, b)) == XorWord(Turn(a), Turn(b))
  {
    hide Pow2, TopBit, Turn, Xor;
    var x, s := HighBit(a);
    var y, t := HighBit(b);
    var u := if s != t then 1 else 0;
    XorHigh(x, y, 31, s, t);
    XorBound(x, y, 31);
    var z := Xor(x, y);
    assert XorWord(a, b) == z + TopBit(u, 31);
    TurnHigh(x, s);
    TurnHigh(y, t);
    TurnHigh(z, u);
    XorShift(x, y, s, t);
  }

  lemma {:induction false} RotlXor(a: uint32, b: uint32, k: nat)
    ensures Rotl(XorWord(a, b), k) == XorWord(Rotl(a, k), Rotl(b, k))
    decreases k
  {
    hide XorWord, Turn;
    if k > 0 {
      TurnXor(a, b);
      RotlXor(Turn(a), Turn(b), k - 1);
    }
  }

  lemma {:induction false} RotlTwice(x: uint32, j: nat, k: nat)
    ensures Rotl(Rotl(x, j), k) == Rotl(x, j + k)
    decreases j
  {
    hide Turn;
    if j > 0 { RotlTwice(Turn(x), j - 1, k); }
  }

  /** What UPDATE_HASH makes of a hash and a byte. */
  function Taken(hash: uint32, c: byte): uint32 { Rotl(XorWord(hash, c), 5) }

  /** The hash after n bytes from p on. */
  function HashOf(hash: uint32, src: seq<byte>, p: nat, n: nat): uint32
    requires p + n <= |src|
    decreases n
  {
    if n == 0 then hash else Taken(HashOf(hash, src, p, n - 1), src[p + n - 1])
  }

  /** The hash of the LZMATCH bytes at p. */
  function HashAt(src: seq<byte>, p: nat): uint32
    requires p + LZMATCH <= |src|
  {
    HashOf(0, src, p, LZMATCH)
  }

  /** Equal bytes have equal hashes. */
  lemma {:induction false} HashSame(hash: uint32, src: seq<byte>, p: nat, q: nat, n: nat)
    requires p + n <= |src| && q + n <= |src| && src[p..p + n] == src[q..q + n]
    ensures HashOf(hash, src, p, n) == HashOf(hash, src, q, n)
    decreases n
  {
    hide Taken;
    if n > 0 {
      var a, b := src[p..p + n], src[q..q + n];
      assert a[n - 1] == src[p + n - 1] && b[n - 1] == src[q + n - 1];
      assert a[..n - 1] == src[p..p + (n - 1)];
      assert b[..n - 1] == src[q..q + (n - 1)];
      HashSame(hash, src, p, q, n - 1);
    }
  }

  /** A change of the hash goes through the bytes that follow, turning with them. */
  lemma {:induction false} HashXor(hash: uint32, u: uint32, src: seq<byte>, p: nat, n: nat)
    requires p + n <= |src|
    ensures HashOf(XorWord(hash, u), src, p, n) == XorWord(HashOf(hash, src, p, n), Rotl(u, 5 * n))
    decreases n
  {
    hide Rotl, Xor;
    if n == 0 {
      RotlNone(u);
    } else {
      HashXor(hash, u, src, p, n - 1);
      var h, v, c := HashOf(hash, src, p, n - 1), Rotl(u, 5 * (n - 1)), src[p + n - 1];
      XorSwap(h, v, c);
      RotlXor(XorWord(h, c), v, 5);
      RotlTwice(u, 5 * (n - 1), 5);
    }
  }

  lemma RotlNone(u: uint32)
    ensures Rotl(u, 0) == u
  {
  }

  lemma {:induction false} HashFirst(hash: uint32, src: seq<byte>, p: nat, n: nat)
    requires p + n + 1 <= |src|
    ensures HashOf(hash, src, p, n + 1) == HashOf(Taken(hash, src[p]), src, p + 1, n)
    decreases n
  {
    hide Taken;
    if n == 0 {
      assert HashOf(hash, src, p, 0) == hash;
    } else {
      HashFirst(hash, src, p, n - 1);
    }
  }

  /** Taking out the oldest byte and taking in the next one gives the hash one byte further on. */
  lemma Rolls(src: seq<byte>, p: nat)
    requires p + LZMATCH < |src|
    ensures Taken(XorWord(HashAt(src, p), Rotl(src[p], 25)), src[p + LZMATCH]) == HashAt(src, p + 1)
  {
    hide Rotl, Xor, HashOf;
    var b := src[p];
    XorZero(b);
    HashFirst(0, src, p, LZMATCH - 1);
    assert HashAt(src, p) == HashOf(Rotl(b, 5), src, p + 1, LZMATCH - 1);
    XorZero(Rotl(b, 5));
    HashXor(0, Rotl(b, 5), src, p + 1, LZMATCH - 1);
    RotlTwice(b, 5, 20);
    XorTwice(HashOf(0, src, p + 1, LZMATCH - 1), Rotl(b, 25));
    HashLast(0, src, p + 1, LZMATCH);
  }

  lemma HashLast(hash: uint32, src: seq<byte>, p: nat, n: nat)
    requires 0 < n && p + n <= |src|
    ensures HashOf(hash, src, p, n) == Taken(HashOf(hash, src, p, n - 1), src[p + n - 1])
  {
  }

  /** UPDATE_HASH */
  method UpdateHash(hash: uint32, c: byte) returns (h: uint32)
    ensures h == Taken(hash, c)
  {
    h := XorWord(hash, c);
    h := Rotl(h, 5);
  }

  /** UPDATE_HASH_EX: drops the byte at p and takes in the one LZMATCH further on, so that the hash of
      the bytes at p becomes that of the bytes at p + 1. */
  method UpdateHashEx(hash: uint32, src: seq<byte>, p: nat) returns (h: uint32)
    requires p + LZMATCH < |src| && hash == HashAt(src, p)
    ensures h == HashAt(src, p + 1)
  {
    Rolls(src, p);
    hide HashAt;
    h := XorWord(hash, Rotl(src[p], 25));
    h := XorWord(h, src[p + LZMATCH]);
    h := Rotl(h, 5);
  }

  /** _calcHash */
  method CalcHash(src: seq<byte>, p: nat) returns (hash: uint32)
    requires p + LZMATCH <= |src|
    ensures hash == HashAt(src, p)
  {
    hide Taken;
    hash := 0;
    for i := 0 to LZMATCH
      invariant hash == HashOf(0, src, p, i)
    {
      hash := UpdateHash(hash, src[p + i]);
    }
  }

  function HashIndex(hash: uint32): (p: nat)
    ensures p < LZTABLESIZE
  {
    (hash * 214013 + 2531011) % WORD / 0x2_0000
  }

  /** HASH_POS */
  method HashPos(hash: uint32) returns (p: nat)
    ensures p == HashIndex(hash) && p < LZTABLESIZE
  {
    p := (hash * 214013 + 2531011) % WORD / 0x2_0000;
  }
}
