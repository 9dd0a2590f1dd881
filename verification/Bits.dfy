/** Bit strings, most significant bit first, and the 32-bit register arithmetic that packs
    them into bytes. A register is an integer below 2^32; `<<` doubles modulo 2^32, `>>`
    halves, and `|` is the bitwise function Or. */
module Bits {
  type byte = x: int | 0 <= x < 256
  type uint32 = x: int | 0 <= x < 0x1_0000_0000

  const WORD: int := 0x1_0000_0000

  function Pow2(n: nat): (p: nat)
    ensures 1 <= p
  {
    if n == 0 then 1 else 2 * Pow2(n - 1)
  }

  /** The n low bits of v. */
  function ToBits(v: nat, n: nat): (s: seq<bool>)
    ensures |s| == n
  {
    if n == 0 then [] else ToBits(v / 2, n - 1) + [v % 2 == 1]
  }

  function Value(s: seq<bool>): nat {
    if s == [] then 0 else 2 * Value(s[..|s| - 1]) + (if s[|s| - 1] then 1 else 0)
  }

  /** `a | b` */
  function Or(a: nat, b: nat): nat {
    if a == 0 && b == 0 then 0
    else 2 * Or(a / 2, b / 2) + (if a % 2 == 1 || b % 2 == 1 then 1 else 0)
  }

  /** `x << k` in a 32-bit register */
  function Shl(x: uint32, k: nat): uint32
    decreases k
  {
    if k == 0 then x else Shl((2 * x) % 0x1_0000_0000, k - 1)
  }

  /** `x >> k` */
  function Shr(x: nat, k: nat): nat {
    if k == 0 then x else Shr(x / 2, k - 1)
  }

  function Zeros(n: nat): (s: seq<bool>)
    ensures |s| == n
  {
    seq(n, i => false)
  }

  /** The bits of a byte string. */
  function Unpack(bytes: seq<byte>): (s: seq<bool>)
    ensures |s| == 8 * |bytes|
  {
    if bytes == [] then [] else Unpack(bytes[..|bytes| - 1]) + ToBits(bytes[|bytes| - 1], 8)
  }

  /** `part` stands in `stream` at position p. */
  predicate At(stream: seq<bool>, p: nat, part: seq<bool>) {
    p + |part| <= |stream| && stream[p..p + |part|] == part
  }

  /** The register holds the bit string s, left aligned, over zeros. */
  predicate Holds(register: nat, s: seq<bool>) {
    |s| <= 32 && register == Value(s + Zeros(32 - |s|))
  }

  // ----- powers of two

  lemma {:induction false} Pow2Add(a: nat, b: nat)
    ensures Pow2(a + b) == Pow2(a) * Pow2(b)
  {
    if a == 0 {
    } else {
      Pow2Add(a - 1, b);
      assert Pow2(a + b) == 2 * Pow2(a - 1 + b);
      assert 2 * (Pow2(a - 1) * Pow2(b)) == (2 * Pow2(a - 1)) * Pow2(b);
    }
  }

  lemma {:induction false} Pow2Mono(a: nat, b: nat)
    requires a <= b
    ensures Pow2(a) <= Pow2(b)
    decreases b
  {
    if a < b { Pow2Mono(a, b - 1); }
  }

  lemma Pow2Small()
    ensures Pow2(0) == 1 && Pow2(1) == 2 && Pow2(2) == 4 && Pow2(3) == 8 && Pow2(4) == 16
    ensures Pow2(5) == 32 && Pow2(6) == 64 && Pow2(7) == 128 && Pow2(8) == 256
    ensures Pow2(12) == 4096 && Pow2(16) == 0x1_0000 && Pow2(32) == 0x1_0000_0000
  {
    assert Pow2(4) == 16;
    assert Pow2(8) == 256;
    assert Pow2(12) == 4096;
    assert Pow2(16) == 0x1_0000;
    Pow2Add(16, 16);
  }

  // ----- bit strings and their values

  lemma {:induction false} ValueBound(s: seq<bool>)
    ensures Value(s) < Pow2(|s|)
  {
    if s != [] { ValueBound(s[..|s| - 1]); }
  }

  lemma {:induction false} ValueToBits(v: nat, n: nat)
    requires v < Pow2(n)
    ensures Value(ToBits(v, n)) == v
  {
    if n == 0 {
    } else {
      ValueToBits(v / 2, n - 1);
      assert ToBits(v, n)[..n - 1] == ToBits(v / 2, n - 1);
    }
  }

  lemma {:induction false} ToBitsValue(s: seq<bool>)
    ensures ToBits(Value(s), |s|) == s
  {
    if s == [] {
    } else {
      ToBitsValue(s[..|s| - 1]);
      assert s == s[..|s| - 1] + [s[|s| - 1]];
    }
  }

  lemma ValueSnoc(s: seq<bool>, b: bool)
    ensures Value(s + [b]) == 2 * Value(s) + (if b then 1 else 0)
  {
    assert (s + [b])[..|s|] == s;
  }

  lemma {:induction false} ValueCons(b: bool, s: seq<bool>)
    ensures Value([b] + s) == (if b then Pow2(|s|) else 0) + Value(s)
  {
    if s == [] {
      assert [b] + s == [] + [b];
      ValueSnoc([], b);
    } else {
      var t := s[..|s| - 1];
      ValueCons(b, t);
      assert [b] + s == ([b] + t) + [s[|s| - 1]];
      ValueSnoc([b] + t, s[|s| - 1]);
    }
  }

  lemma {:induction false} LeadingZeros(n: nat, s: seq<bool>)
    ensures Value(Zeros(n) + s) == Value(s)
  {
    if n == 0 {
      assert Zeros(n) + s == s;
    } else {
      LeadingZeros(n - 1, s);
      assert Zeros(n) + s == [false] + (Zeros(n - 1) + s);
      ValueCons(false, Zeros(n - 1) + s);
    }
  }

  lemma {:induction false} ZerosValue(n: nat)
    ensures Value(Zeros(n)) == 0
  {
    if n > 0 {
      ZerosValue(n - 1);
      assert Zeros(n) == Zeros(n - 1) + [false];
      ValueSnoc(Zeros(n - 1), false);
    }
  }

  lemma UnpackSnoc(a: seq<byte>, b: byte)
    ensures Unpack(a + [b]) == Unpack(a) + ToBits(b, 8)
  {
    assert (a + [b])[..|a|] == a;
  }

  /** a * 2^m */
  function Scaled(a: nat, m: nat): nat
    decreases m
  {
    if m == 0 then a else 2 * Scaled(a, m - 1)
  }

  lemma {:induction false} ScaledBits(a: nat, n: nat, b: nat, m: nat)
    requires a < Pow2(n) && b < Pow2(m)
    ensures ToBits(Scaled(a, m) + b, n + m) == ToBits(a, n) + ToBits(b, m)
    ensures Scaled(a, m) + b < Pow2(n + m)
  {
    if m == 0 {
      assert ToBits(a, n) + ToBits(b, m) == ToBits(a, n);
    } else {
      ScaledBits(a, n, b / 2, m - 1);
      assert ToBits(a, n) + ToBits(b, m) == (ToBits(a, n) + ToBits(b / 2, m - 1)) + [b % 2 == 1];
    }
  }

  lemma {:induction false} ScaledOne(m: nat)
    ensures Scaled(1, m) == Pow2(m)
  {
    if m > 0 { ScaledOne(m - 1); }
  }

  lemma {:induction false} ValueConcat(a: seq<bool>, b: seq<bool>)
    ensures Value(a + b) == Scaled(Value(a), |b|) + Value(b)
  {
    if b == [] {
      assert a + b == a;
    } else {
      var b' := b[..|b| - 1];
      ValueConcat(a, b');
      assert a + b == (a + b') + [b[|b| - 1]];
      ValueSnoc(a + b', b[|b| - 1]);
    }
  }

  lemma {:induction false} UnpackConcat(a: seq<byte>, b: seq<byte>)
    ensures Unpack(a + b) == Unpack(a) + Unpack(b)
  {
    if b == [] {
      assert a + b == a;
    } else {
      var b', z := b[..|b| - 1], b[|b| - 1];
      UnpackConcat(a, b');
      assert a + b == (a + b') + [z];
      UnpackSnoc(a + b', z);
      Assoc(Unpack(a), Unpack(b'), ToBits(z, 8));
    }
  }

  lemma Assoc(a: seq<bool>, b: seq<bool>, c: seq<bool>)
    ensures (a + b) + c == a + (b + c)
  {
  }

  /** The bits of the byte at index q. */
  lemma UnpackAt(bytes: seq<byte>, q: nat)
    requires q < |bytes|
    ensures At(Unpack(bytes), 8 * q, ToBits(bytes[q], 8))
  {
    hide Unpack, ToBits, At;
    var a, b := bytes[..q], bytes[q + 1..];
    assert bytes == (a + [bytes[q]]) + b;
    UnpackConcat(a + [bytes[q]], b);
    UnpackSnoc(a, bytes[q]);
    AtMiddle(Unpack(a), ToBits(bytes[q], 8), Unpack(b));
  }

  lemma AtMiddle(a: seq<bool>, b: seq<bool>, c: seq<bool>)
    ensures At((a + b) + c, |a|, b)
  {
  }

  lemma AtSplit(stream: seq<bool>, p: nat, a: seq<bool>, b: seq<bool>)
    requires At(stream, p, a + b)
    ensures At(stream, p, a) && At(stream, p + |a|, b)
  {
    assert stream[p..p + |a|] == (a + b)[..|a|];
    assert stream[p + |a|..p + |a| + |b|] == (a + b)[|a|..];
  }

  // ----- registers

  lemma ShlOne(s: seq<bool>)
    requires |s| == 32
    ensures Value(s) < 0x1_0000_0000
    ensures (2 * Value(s)) % 0x1_0000_0000 == Value(s[1..] + [false])
  {
    hide Value, Pow2;
    var t := s[1..];
    assert s == [s[0]] + t;
    ValueCons(s[0], t);
    ValueSnoc(t, false);
    ValueBound(t);
    HalfRegister();
    DropTop(s[0], Value(t));
  }

  lemma DropTop(top: bool, v: nat)
    requires v < 0x8000_0000
    ensures (2 * ((if top then 0x8000_0000 else 0) + v)) % 0x1_0000_0000 == 2 * v
  {
  }

  lemma HalfRegister()
    ensures Pow2(31) == 0x8000_0000
  {
    Pow2Small();
    assert Pow2(32) == 2 * Pow2(31);
  }

  /** Shifting left drops bits on the left and brings zeros in on the right. */
  lemma {:induction false} ShlValue(s: seq<bool>, k: nat)
    requires |s| == 32 && k <= 32
    ensures Value(s) < 0x1_0000_0000
    ensures Shl(Value(s), k) == Value(s[k..] + Zeros(k))
    decreases k
  {
    ShlOne(s);
    if k == 0 {
      assert s[0..] + Zeros(0) == s;
    } else {
      var u := s[1..] + [false];
      ShlValue(u, k - 1);
      ShiftTwice(s, k);
    }
  }

  lemma ShiftTwice(s: seq<bool>, k: nat)
    requires 1 <= k <= |s|
    ensures (s[1..] + [false])[k - 1..] + Zeros(k - 1) == s[k..] + Zeros(k)
  {
    assert (s[1..] + [false])[k - 1..] == s[k..] + [false];
    assert [false] + Zeros(k - 1) == Zeros(k);
  }

  lemma ValueHalf(s: seq<bool>)
    requires s != []
    ensures Value(s) / 2 == Value(s[..|s| - 1])
  {
  }

  lemma {:induction false} ShrValue(s: seq<bool>, k: nat)
    requires k <= |s|
    ensures Shr(Value(s), k) == Value(s[..|s| - k])
    decreases k
  {
    if k == 0 {
      assert s[..|s|] == s;
    } else {
      hide Value;
      var t := s[..|s| - 1];
      ValueHalf(s);
      ShrValue(t, k - 1);
      assert t[..|t| - (k - 1)] == s[..|s| - k];
    }
  }

  function OrBits(s: seq<bool>, t: seq<bool>): (u: seq<bool>)
    requires |s| == |t|
    ensures |u| == |s|
  {
    seq(|s|, i requires 0 <= i < |s| => s[i] || t[i])
  }

  lemma {:induction false} OrValue(s: seq<bool>, t: seq<bool>)
    requires |s| == |t|
    ensures Or(Value(s), Value(t)) == Value(OrBits(s, t))
  {
    if s == [] {
    } else {
      var n := |s| - 1;
      OrValue(s[..n], t[..n]);
      assert OrBits(s, t)[..n] == OrBits(s[..n], t[..n]);
      assert Value(s) / 2 == Value(s[..n]) && Value(t) / 2 == Value(t[..n]);
    }
  }

  lemma OrBitsOfBytes(a: byte, b: byte)
    ensures Or(a, b) < 256
    ensures ToBits(Or(a, b), 8) == OrBits(ToBits(a, 8), ToBits(b, 8))
  {
    Pow2Small();
    ValueToBits(a, 8);
    ValueToBits(b, 8);
    var u := OrBits(ToBits(a, 8), ToBits(b, 8));
    OrValue(ToBits(a, 8), ToBits(b, 8));
    ValueBound(u);
    ToBitsValue(u);
  }

  lemma HoldsBound(register: nat, s: seq<bool>)
    requires Holds(register, s)
    ensures register < 0x1_0000_0000
  {
    Pow2Small();
    ValueBound(s + Zeros(32 - |s|));
  }

  /** A small number is a register with leading zeros. */
  lemma SmallValue(v: nat, n: nat)
    requires n <= 32 && v < Pow2(n)
    ensures v == Value(Zeros(32 - n) + ToBits(v, n)) && v < 0x1_0000_0000
  {
    ValueToBits(v, n);
    LeadingZeros(32 - n, ToBits(v, n));
    Pow2Small();
    ValueBound(Zeros(32 - n) + ToBits(v, n));
  }

  /** `register | (v << (32 - |s| - n))` appends the n-bit code v. */
  lemma HoldsAppend(register: nat, s: seq<bool>, v: nat, n: nat)
    requires Holds(register, s) && |s| + n <= 32 && v < Pow2(n)
    ensures v < 0x1_0000_0000
    ensures Holds(Or(register, Shl(v, 32 - |s| - n)), s + ToBits(v, n))
  {
    hide Value, ToBits, Or, Shl, Pow2;
    var k := 32 - |s| - n;
    var c := ToBits(v, n);
    SmallValue(v, n);
    ShlValue(Zeros(32 - n) + c, k);
    OrValue(s + Zeros(32 - |s|), (Zeros(32 - n) + c)[k..] + Zeros(k));
    OverlayCode(s, c, k);
  }

  /** A code shifted up to s fills the zeros after s. */
  lemma OverlayCode(s: seq<bool>, c: seq<bool>, k: nat)
    requires |s| + |c| + k == 32
    ensures OrBits(s + Zeros(32 - |s|), (Zeros(32 - |c|) + c)[k..] + Zeros(k)) == (s + c) + Zeros(k)
  {
    var u := (Zeros(32 - |c|) + c)[k..] + Zeros(k);
    assert u == Zeros(|s|) + c + Zeros(k);
    var x, y := OrBits(s + Zeros(32 - |s|), u), (s + c) + Zeros(k);
    forall i | 0 <= i < 32 ensures x[i] == y[i] { }
  }

  /** `register >> (32 - k)` reads the first k bits. */
  lemma HoldsTop(register: nat, s: seq<bool>, k: nat)
    requires Holds(register, s) && k <= |s|
    ensures Shr(register, 32 - k) == Value(s[..k])
  {
    var w := s + Zeros(32 - |s|);
    ShrValue(w, 32 - k);
    assert w[..k] == s[..k];
  }

  /** `register << k` drops the first k bits. */
  lemma HoldsDrop(register: nat, s: seq<bool>, k: nat)
    requires Holds(register, s) && k <= |s|
    ensures register < 0x1_0000_0000
    ensures Holds(Shl(register, k), s[k..])
  {
    var w := s + Zeros(32 - |s|);
    ShlValue(w, k);
    assert w[k..] + Zeros(k) == s[k..] + Zeros(32 - |s[k..]|);
  }

  lemma HoldsNothing()
    ensures Holds(0, [])
  {
    LeadingZeros(32, []);
    assert Zeros(32) + [] == [] + Zeros(32);
  }

  /** The zeros under the bit string may be counted as part of it. */
  lemma HoldsPadded(register: nat, s: seq<bool>, k: nat)
    requires Holds(register, s) && |s| + k <= 32
    ensures Holds(register, s + Zeros(k))
  {
    assert s + Zeros(32 - |s|) == (s + Zeros(k)) + Zeros(32 - |s| - k);
  }

  /** `(a << m) | b` is the n-bit field a followed by the m-bit field b. */
  lemma Fields(a: nat, n: nat, b: nat, m: nat)
    requires n + m <= 32 && a < Pow2(n) && b < Pow2(m)
    ensures a < 0x1_0000_0000
    ensures ToBits(Or(Shl(a, m), b), n + m) == ToBits(a, n) + ToBits(b, m)
    ensures Or(Shl(a, m), b) < Pow2(n + m)
  {
    SmallValue(a, n);
    FieldsValue(a, n, b, m);
    BitsOf(Or(Shl(a, m), b), ToBits(a, n) + ToBits(b, m));
  }

  lemma BitsOf(v: nat, s: seq<bool>)
    requires v == Value(s)
    ensures ToBits(v, |s|) == s && v < Pow2(|s|)
  {
    ToBitsValue(s);
    ValueBound(s);
  }

  lemma FieldsValue(a: nat, n: nat, b: nat, m: nat)
    requires n + m <= 32 && a < Pow2(n) && b < Pow2(m) && a < 0x1_0000_0000
    ensures Or(Shl(a, m), b) == Value(ToBits(a, n) + ToBits(b, m))
  {
    SmallValue(a, n);
    SmallValue(b, m);
    FieldsOr(ToBits(a, n), ToBits(b, m));
  }

  lemma FieldsOr(s: seq<bool>, t: seq<bool>)
    requires |s| + |t| <= 32
    ensures Value(Zeros(32 - |s|) + s) < 0x1_0000_0000
    ensures Or(Shl(Value(Zeros(32 - |s|) + s), |t|), Value(Zeros(32 - |t|) + t)) == Value(s + t)
  {
    var x := Zeros(32 - |s|) + s;
    ShlValue(x, |t|);
    OrValue(x[|t|..] + Zeros(|t|), Zeros(32 - |t|) + t);
    OverlayFields(s, t);
    LeadingZeros(32 - |s| - |t|, s + t);
  }

  lemma OverlayFields(s: seq<bool>, t: seq<bool>)
    requires |s| + |t| <= 32
    ensures OrBits((Zeros(32 - |s|) + s)[|t|..] + Zeros(|t|), Zeros(32 - |t|) + t)
         == Zeros(32 - |s| - |t|) + (s + t)
  {
    var x, y := (Zeros(32 - |s|) + s)[|t|..] + Zeros(|t|), Zeros(32 - |t|) + t;
    var u, w := OrBits(x, y), Zeros(32 - |s| - |t|) + (s + t);
    assert |u| == |w|;
    forall i | 0 <= i < 32 ensures u[i] == w[i] { }
  }
}
