/** The decompressor: a bit reader, the decoder's tables, and the ring. */
module Decompressors {
  import opened Bits
  import opened HuffStat
  import opened GroupCode
  import opened Tables
  import opened Adaptive
  import opened Decoding
  import opened Windows

  function OrByte(a: byte, b: byte): (r: byte)
  {
    OrBitsOfBytes(a, b);
    Or(a, b)
  }

  /** The bytes the decoder sees. A block begins by forgetting the number of bits left in the
      register, not the bits: they are or-ed into its first byte. */
  function Seen(left: byte, src: seq<byte>): (seen: seq<byte>)
    ensures |seen| == |src|
    ensures left == 0 ==> seen == src
  {
    OrNothing(if src == [] then 0 else src[0]);
    if src == [] then [] else [OrByte(left, src[0])] + src[1..]
  }

  lemma {:induction false} OrNothing(b: nat)
    ensures Or(0, b) == b
  {
    if b != 0 { OrNothing(b / 2); }
  }

  /** The bits of a block. */
  function Input(left: byte, src: seq<byte>): (bits: seq<bool>)
    ensures |bits| == 8 * |src|
  {
    Unpack(Seen(left, src))
  }

  /** With k bytes loaded and p bits read, the register holds the bits in between. */
  ghost predicate Loaded(register: uint32, left: byte, src: seq<byte>, k: nat, p: nat) {
    && k <= |src| && p <= 8 * k < p + 8
    && (if k == 0 then Holds(register, ToBits(left, 8)) else Holds(register, Input(left, src)[p..8 * k]))
  }

  lemma FirstLoad(register: uint32, left: byte, b: byte)
    requires Holds(register, ToBits(left, 8))
    ensures Holds(Or(register, Shl(b, 24)), ToBits(OrByte(left, b), 8))
  {
    hide ToBits, Value, Or, Shl;
    var s, t := ToBits(left, 8), ToBits(b, 8);
    assert Pow2(8) == 256;
    SmallValue(b, 8);
    ShlValue(Zeros(24) + t, 24);
    assert (Zeros(24) + t)[24..] == t;
    OrValue(s + Zeros(24), t + Zeros(24));
    assert OrBits(s + Zeros(24), t + Zeros(24)) == OrBits(s, t) + Zeros(24);
    OrBitsOfBytes(left, b);
  }

  /** Loading the next byte. */
  lemma LoadByte(register: uint32, left: byte, src: seq<byte>, k: nat, p: nat)
    requires Loaded(register, left, src, k, p) && k < |src|
    ensures Holds(Or(register, Shl(src[k], 24 - (8 * k - p))), Input(left, src)[p..8 * k + 8])
  {
    hide ToBits, Value, Or, Shl, Holds, Unpack;
    var input := Input(left, src);
    UnpackAt(Seen(left, src), k);
    assert input[8 * k..8 * k + 8] == ToBits(Seen(left, src)[k], 8);
    if k == 0 {
      FirstLoad(register, left, src[0]);
    } else {
      assert Pow2(8) == 256;
      HoldsAppend(register, input[p..8 * k], src[k], 8);
      assert input[p..8 * k + 8] == input[p..8 * k] + input[8 * k..8 * k + 8];
    }
  }

  /** Reading the first n bits out of the register. */
  lemma TakeBits(register: uint32, input: seq<bool>, p: nat, q: nat, n: nat)
    requires p + n <= q <= |input| && Holds(register, input[p..q]) && 1 <= n <= 8
    ensures Shr(register, 32 - n) == Peek(input, p, n)
    ensures Holds(Shl(register, n), input[p + n..q])
  {
    hide ToBits, Value, Or, Shl, Holds, Unpack;
    HoldsTop(register, input[p..q], n);
    HoldsDrop(register, input[p..q], n);
    assert input[p..q][..n] == input[p..p + n];
    assert input[p..q][n..] == input[p + n..q];
  }

  /** The bits after p up to the end of their byte, over zeros. */
  function Leftover(left: byte, src: seq<byte>, p: nat): (rest: seq<bool>)
    requires p <= 8 * |src|
    ensures |rest| == 8
  {
    var q := 8 * ((p + 7) / 8);
    Input(left, src)[p..q] + Zeros(8 - (q - p))
  }

  lemma LoadedLeft(register: uint32, left: byte, src: seq<byte>, k: nat, p: nat)
    requires Loaded(register, left, src, k, p) && 0 < k
    ensures var input := Input(left, src); var q := 8 * k;
      && k == (p + 7) / 8 && Holds(register, Leftover(left, src, p))
      && Shr(register, 24) == Value(Leftover(left, src, p)) < 256
      && ToBits(Shr(register, 24), 8) == Leftover(left, src, p)
  {
    hide ToBits, Value, Shr, Holds, Unpack;
    var input := Input(left, src);
    HoldsPadded(register, input[p..8 * k], 8 - (8 * k - p));
    HoldsTop(register, Leftover(left, src, p), 8);
    assert Leftover(left, src, p)[..8] == Leftover(left, src, p);
    assert Pow2(8) == 256;
    BitsOf(Shr(register, 24), Leftover(left, src, p));
  }

  // ----- what reading in pieces amounts to

  /** Two reads in a row read one wider field. */
  lemma PeekTwice(bits: seq<bool>, p: nat, n: nat, m: nat)
    requires Has(bits, p, n + m) && n + m <= 32 && Peek(bits, p, n) < 0x1_0000_0000
    ensures Or(Shl(Peek(bits, p, n), m), Peek(bits, p + n, m)) == Peek(bits, p, n + m)
  {
    hide Or, Shl, ToBits, Value;
    var a, b := bits[p..p + n], bits[p + n..p + n + m];
    assert a + b == bits[p..p + (n + m)];
    ToBitsValue(a);
    ToBitsValue(b);
    ValueBound(a);
    ValueBound(b);
    FieldsValue(Value(a), n, Value(b), m);
  }

  /** An overlapping copy, byte by byte. */
  lemma {:induction false} CopyByte(h: seq<byte>, disp: nat, len: nat, i: nat)
    requires 1 <= disp <= |h| && i < len
    ensures CopyFrom(h, disp, len)[|h| + i] == CopyFrom(h, disp, len)[|h| + i - disp]
    decreases len
  {
    var g := h + [h[|h| - disp]];
    var r := CopyFrom(g, disp, len - 1);
    assert CopyFrom(h, disp, len) == r;
    if i == 0 {
      assert r[|h|] == r[..|g|][|h|] && r[|h| - disp] == r[..|g|][|h| - disp];
    } else {
      CopyByte(g, disp, len - 1, i - 1);
    }
  }

  /** The bytes of m come out of the window as far as it reaches, then out of m itself. */
  ghost predicate Copied(m: seq<byte>, win: seq<byte>, disp: nat) {
    && |win| == WINDOW && 1 <= disp < WINDOW
    && forall i :: 0 <= i < |m| ==> CopiedAt(m, win, disp, i)
  }

  ghost predicate CopiedAt(m: seq<byte>, win: seq<byte>, disp: nat, i: nat)
    requires |win| == WINDOW && 1 <= disp < WINDOW && i < |m|
  {
    m[i] == if i < disp then win[WINDOW - disp + i] else m[i - disp]
  }

  lemma CopiedSnoc(m: seq<byte>, win: seq<byte>, disp: nat)
    requires Copied(m, win, disp) && disp <= |m|
    ensures 1 <= disp && Copied(m + [m[|m| - disp]], win, disp)
  {
    var t := m + [m[|m| - disp]];
    forall i | 0 <= i < |t| ensures CopiedAt(t, win, disp, i) {
      if i < |m| { assert CopiedAt(m, win, disp, i); }
    }
  }

  /** That is the LZ77 copy. */
  lemma CopyIsMatch(s: State, disp: nat, m: seq<byte>)
    requires Copied(m, s.win, disp) && s.o + |m| <= |s.dst|
    ensures m == MatchBytes(s, disp, |m|)
  {
    hide MatchBytes, CopyFrom;
    var r := CopyFrom(s.win, disp, |m|);
    assert MatchBytes(s, disp, |m|) == r[WINDOW..] by { MatchBytesOf(s, disp, |m|); }
    var i := 0;
    while i < |m|
      invariant i <= |m| && forall j :: 0 <= j < i ==> m[j] == r[WINDOW + j]
    {
      CopyByte(s.win, disp, |m|, i);
      assert CopiedAt(m, s.win, disp, i);
      if i < disp {
        assert r[..WINDOW] == s.win;
        assert r[WINDOW + i - disp] == r[..WINDOW][WINDOW + i - disp] == m[i];
      } else {
        assert m[i - disp] == r[WINDOW + (i - disp)];
      }
      i := i + 1;
    }
  }

  lemma NothingCopied(s: State, len: nat)
    requires |s.win| == WINDOW && s.o + len <= |s.dst|
    ensures MatchBytes(s, 0, len) == s.dst[s.o..s.o + len]
  {
  }

  lemma Written(s: State, m: seq<byte>)
    requires |s.win| == WINDOW && s.o + |m| <= |s.dst|
    ensures Write(s, m)
      == State(s.dec, Last(s.win + m), s.dst[..s.o] + m + s.dst[s.o + |m|..], s.o + |m|, s.p, s.status)
  {
  }

  lemma MatchBytesOf(s: State, disp: nat, len: nat)
    requires |s.win| == WINDOW && 1 <= disp < WINDOW && s.o + len <= |s.dst|
    ensures MatchBytes(s, disp, len) == CopyFrom(s.win, disp, len)[WINDOW..]
  {
  }

  // ----- the decoder

  class Decompressor {
    const window: LZBuffer
    const stat: array<int16>
    const groupTable: array<Group>
    const symbolTable: array<int>
    var bits: uint32
    var nBits: int

    constructor (memory: seq<byte>)
      requires |memory| == WINDOW
      ensures Valid() && Model() == InitialDec() && window.Window() == Contents(memory, 0) && Left() == 0
      ensures fresh(window) && fresh(window.buf) && fresh(stat) && fresh(groupTable) && fresh(symbolTable)
    {
      window := new LZBuffer(memory);
      stat := new int16[SYMBOLS](_ => 0);
      groupTable := new Group[GROUPS](g requires 0 <= g < GROUPS => InitialGroup(g));
      symbolTable := new int[SYMBOLS](p requires 0 <= p < SYMBOLS => InitialSymbol(p));
      bits := 0;
      nBits := 0;
      new;
      NothingLeft();
      assert Model() == InitialDec();
      InitiallyInStep();
    }

    /** Forgets statistics and tables, but not the ring. */
    method Reset()
      requires Valid()
      modifies stat, groupTable, symbolTable, `bits, `nBits
      ensures Valid() && Model() == InitialDec() && Left() == 0
    {
      nBits := 0;
      bits := 0;
      forall p | 0 <= p < SYMBOLS { symbolTable[p] := InitialSymbol(p); }
      forall g | 0 <= g < GROUPS { groupTable[g] := InitialGroup(g); }
      forall i | 0 <= i < SYMBOLS { stat[i] := 0; }
      NothingLeft();
      assert Model() == InitialDec();
      InitiallyInStep();
    }

    ghost function Model(): Dec
      reads stat, groupTable, symbolTable
    {
      Dec(stat[..], groupTable[..], symbolTable[..])
    }

    /** The bits an earlier block left in the register. */
    ghost function Left(): byte
      reads this
    {
      Shr(bits, 24) % 256
    }

    ghost predicate Valid()
      reads this, window, stat, groupTable, symbolTable
    {
      window.Valid() && Wf(Model()) && Holds(bits, ToBits(Left(), 8))
    }

    /** Ready to read bit p. */
    ghost predicate Feeds(left: byte, src: seq<byte>, k: nat, p: nat)
      reads this
    {
      Loaded(bits, left, src, k, p) && nBits == 8 * k - p
    }

    /** _get: the next n bits, or -1 at the end of the block. */
    method Get(src: seq<byte>, k0: nat, n: nat, ghost left: byte, ghost p: nat) returns (ret: int, k: nat)
      requires Loaded(bits, left, src, k0, p) && 1 <= n <= 8
      requires nBits == 8 * k0 - p || (nBits == 0 && k0 == |src|)
      modifies `bits, `nBits
      ensures (old(nBits) == 8 * k0 - p && Has(Input(left, src), p, n)
        ==> ret == Peek(Input(left, src), p, n) && Feeds(left, src, k, p + n))
      ensures (!(old(nBits) == 8 * k0 - p && Has(Input(left, src), p, n))
        ==> ret == -1 && k == k0 == |src| && Loaded(bits, left, src, k, p) && nBits == 0)
    {
      hide ToBits, Value, Or, Shl, Shr, Holds, Unpack, Input, Peek;
      k := k0;
      ret := -1;
      if nBits < n {
        if k >= |src| {
          nBits := 0;
          return;
        }
        LoadByte(bits, left, src, k, p);
        HoldsBound(Or(bits, Shl(src[k], 24 - nBits)), Input(left, src)[p..8 * k + 8]);
        bits := Or(bits, Shl(src[k], 24 - nBits));
        k := k + 1;
        nBits := nBits + 8;
      }
      TakeBits(bits, Input(left, src), p, 8 * k, n);
      ret := Shr(bits, 32 - n);
      bits := Shl(bits, n);
      nBits := nBits - n;
    }

    /** Reads a symbol. */
    method GetSymbol(src: seq<byte>, k0: nat, ghost left: byte, ghost p: nat)
      returns (symbol: int, status: Status, k: nat, ghost q: nat)
      requires Wf(Model()) && Feeds(left, src, k0, p)
      modifies `bits, `nBits
      ensures p <= q <= 8 * |src| && Loaded(bits, left, src, k, q) && (src != [] ==> 0 < k)
      ensures (match ReadSymbol(Model(), Input(left, src), p)
        case Got(sym, next) => status == Running && symbol == sym && q == next && Feeds(left, src, k, q)
        case Stop(why, next) => status == why && q == next)
    {
      hide ToBits, Value, Or, Shl, Shr, Holds, Unpack, Input, Peek;
      symbol, status, q := 0, Rejected, p;
      assert Pow2(4) == 16;
      var grp;
      grp, k := Get(src, k0, 4, left, p);
      if grp < 0 { return; }
      q := p + 4;
      var group := groupTable[grp];
      if group.nBits == 0 {
        if group.pos >= SYMBOLS {
          status := Broken;
          return;
        }
        symbol := symbolTable[group.pos];
      } else {
        if group.nBits > MAX_WIDTH {
          status := Broken;
          return;
        }
        var got;
        got, k := Get(src, k, group.nBits, left, q);
        if got < 0 { return; }
        q := q + group.nBits;
        var pos := group.pos + got;
        if pos >= SYMBOLS { return; }
        symbol := symbolTable[pos];
      }
      status := Running;
    }

    /** Counts zeros up to a one. */
    method GetUnary(src: seq<byte>, k0: nat, ghost left: byte, ghost p: nat) returns (n: nat, k: nat, ghost q: nat)
      requires Feeds(left, src, k0, p)
      modifies `bits, `nBits
      ensures (n, q) == Unary(Input(left, src), p) && Feeds(left, src, k, q)
    {
      hide ToBits, Value, Or, Shl, Shr, Holds, Unpack, Input;
      n, k, q := 0, k0, p;
      while true
        invariant Feeds(left, src, k, q)
        invariant var u := Unary(Input(left, src), q); Unary(Input(left, src), p) == (n + u.0, u.1)
        decreases 8 * |src| - q
      {
        var got;
        got, k := Get(src, k, 1, left, q);
        if q < 8 * |src| {
          PeekOne(Input(left, src), q);
          q := q + 1;
        }
        if got != 0 { break; }
        n := n + 1;
      }
    }

    /** Reads the groups of a recalculation. */
    method GetGroups(src: seq<byte>, k0: nat, ghost left: byte, ghost p: nat) returns (pos: nat, k: nat, ghost q: nat)
      requires Feeds(left, src, k0, p) && groupTable.Length == GROUPS
      modifies `bits, `nBits, groupTable
      ensures Feeds(left, src, k, q)
      ensures GroupsRead(groupTable[..], q, pos) == ReadGroups(Input(left, src), p, 0, 0, 0)
    {
      hide ToBits, Value, Or, Shl, Shr, Holds, Unpack, Input, Pow2, Unary, ReadGroups;
      ghost var input := Input(left, src);
      k, q := k0, p;
      assert After([], ReadGroups(input, p, 0, 0, 0)) == ReadGroups(input, p, 0, 0, 0);
      var lastNBits: nat := 0;
      pos := 0;
      var i := 0;
      while i < GROUPS
        invariant i <= GROUPS && Feeds(left, src, k, q) && q <= |input|
        invariant ReadGroups(input, p, 0, 0, 0) == After(groupTable[..i], ReadGroups(input, q, i, lastNBits, pos))
      {
        ghost var was, q0, last0, pos0 := groupTable[..i], q, lastNBits, pos;
        var n;
        n, k, q := GetUnary(src, k, left, q);
        ReadGroupsStep(input, q0, i, last0, pos0, was);
        lastNBits := lastNBits + n;
        groupTable[i] := Group(lastNBits, pos);
        assert groupTable[..i + 1] == was + [Group(lastNBits, pos)];
        pos := pos + Pow2(lastNBits);
        i := i + 1;
      }
      ReadGroupsEnd(input, q, lastNBits, pos, groupTable[..GROUPS]);
      assert groupTable[..GROUPS] == groupTable[..];
    }

    /** The decoder's half of a recalculation. */
    method Recalculate(src: seq<byte>, k0: nat, ghost left: byte, ghost p: nat) returns (pos: nat, k: nat, ghost q: nat)
      requires Wf(Model()) && Feeds(left, src, k0, p)
      modifies `bits, `nBits, stat, groupTable, symbolTable
      ensures Feeds(left, src, k, q) && q <= 8 * k <= 8 * |src|
      ensures (var r := ReadGroups(Input(left, src), p, 0, 0, 0);
        Model() == Rebuilt(old(Model()), r.groups) && q == r.p && pos == r.pos)
    {
      hide ToBits, Value, Or, Shl, Shr, Holds, Unpack, Input, Sorted, ReadGroups;
      ghost var was := stat[..];
      var s, total := MakeSortedTmp(stat);
      ghost var sorted := s[..];
      var i := 0;
      while i < SYMBOLS
        invariant i <= SYMBOLS && s[..] == sorted && stat[..] == Halved(was) && Feeds(left, src, k0, p)
        invariant forall j :: 0 <= j < i ==> symbolTable[j] == sorted[j].i
      {
        symbolTable[i] := s[i].i;
        i := i + 1;
      }
      assert symbolTable[..] == Order(sorted);
      pos, k, q := GetGroups(src, k0, left, p);
    }

    /** The length of a match, less LZMIN. */
    method GetLength(symbol: int, src: seq<byte>, k0: nat, ghost left: byte, ghost p: nat)
      returns (matchOver: int, k: nat, ghost q: nat)
      requires Feeds(left, src, k0, p) && 256 <= symbol < RECALCULATE
      modifies `bits, `nBits
      ensures p <= q <= 8 * |src| && Loaded(bits, left, src, k, q)
      ensures (match ReadLength(symbol, Input(left, src), p)
        case Got(over, next) => matchOver == over && q == next && Feeds(left, src, k, q)
        case Stop(why, next) => matchOver == -1 && why == Rejected && q == next)
    {
      hide ToBits, Value, Or, Shl, Shr, Holds, Unpack, Input, Peek;
      matchOver, k, q := -1, k0, p;
      if symbol < 256 + 8 {
        matchOver := symbol - 256;
      } else {
        var extra;
        ExtraPowers();
        extra, k := Get(src, k, LenExtra(symbol), left, p);
        if extra < 0 { return; }
        matchOver := LenBase(symbol) + extra;
        q := p + LenExtra(symbol);
      }
    }

    /** The displacement of a match, in two or three reads. */
    method GetDisp(src: seq<byte>, k0: nat, ghost left: byte, ghost p: nat) returns (disp: int, k: nat, ghost q: nat)
      requires Feeds(left, src, k0, p)
      modifies `bits, `nBits
      ensures p <= q <= 8 * |src| && Loaded(bits, left, src, k, q)
      ensures (match ReadDisp(Input(left, src), p)
        case Got(d, next) => disp == d && q == next && Feeds(left, src, k, q)
        case Stop(why, next) => disp == -1 && why == Rejected && q == next)
    {
      hide ToBits, Value, Or, Shl, Shr, Holds, Unpack, Input, Peek;
      disp, q := -1, p;
      ExtraPowers();
      var dispPrefix;
      dispPrefix, k := Get(src, k0, 3, left, p);
      if dispPrefix < 0 { return; }
      q := p + 3;
      var nBits := DispExtra(dispPrefix) + 7;
      var high := 0;
      if nBits > 8 {
        nBits := nBits - 8;
        high, k := Get(src, k, 8, left, q);
        if high >= 0 {
          q := q + 8;
          high := Shl(high, nBits);
        }
      }
      var got;
      got, k := Get(src, k, nBits, left, q);
      if got < 0 { return; }
      if DispExtra(dispPrefix) + 7 > 8 {
        PeekTwice(Input(left, src), p + 3, 8, nBits);
      } else {
        OrNothing(got);
      }
      q := q + nBits;
      disp := Or(high, got) + 128 * DispBase(dispPrefix);
    }

    /** Copies the bytes of a match to dst[o..]. */
    method CopyOut(dst: array<byte>, o: nat, disp: nat, matchLen: nat)
      requires window.Valid() && dst != window.buf && disp < WINDOW && matchLen < WINDOW && o + matchLen <= dst.Length
      modifies dst
      ensures dst[..o] == old(dst[..o]) && dst[o + matchLen..] == old(dst[o + matchLen..])
      ensures disp == 0 ==> dst[..] == old(dst[..])
      ensures 0 < disp ==> Copied(dst[o..o + matchLen], window.Window(), disp)
    {
      hide Contents, Slot, ByteAt, Copied;
      ghost var was := dst[..];
      var pos := window.bufPos - disp;
      if matchLen < disp {
        window.BufCpy(dst, o, pos, matchLen);
        FromRing(dst[o..o + matchLen], window.buf[..], window.bufPos, disp);
      } else {
        window.BufCpy(dst, o, pos, disp);
        if disp > 0 { FromRing(dst[o..o + disp], window.buf[..], window.bufPos, disp); }
        assert disp == 0 ==>
          dst[..] == was by { assert dst[..] == dst[..o] + dst[o..]; assert was == was[..o] + was[o..]; }
        assert dst[o + matchLen..] == dst[o + disp..][matchLen - disp..];
        assert was[o + matchLen..] == was[o + disp..][matchLen - disp..];
        CopyForward(dst, o, disp, matchLen - disp, window.Window());
      }
    }

    /** The overlapping copy, byte by byte. */
    static method CopyForward(dst: array<byte>, o: nat, disp: nat, n: nat, ghost win: seq<byte>)
      requires o + disp + n <= dst.Length && (0 < disp ==> Copied(dst[o..o + disp], win, disp))
      modifies dst
      ensures dst[..o] == old(dst[..o]) && dst[o + disp + n..] == old(dst[o + disp + n..])
      ensures disp == 0 ==> dst[..] == old(dst[..])
      ensures 0 < disp ==> Copied(dst[o..o + disp + n], win, disp)
    {
      hide Copied;
      ghost var was := dst[..];
      var i := 0;
      while i < n
        invariant i <= n && dst[..o] == was[..o] && dst[o + disp + i..] == was[o + disp + i..]
        invariant disp == 0 ==> dst[..] == was
        invariant 0 < disp ==> Copied(dst[o..o + disp + i], win, disp)
      {
        ghost var m, rest := dst[o..o + disp + i], dst[o + disp + i..][1..];
        assert rest == was[o + disp + i..][1..];
        if disp > 0 { CopiedSnoc(m, win, disp); }
        dst[o + i + disp] := dst[o + i];
        assert dst[o..o + disp + i + 1] == m + [dst[o + disp + i]];
        assert dst[o + disp + i + 1..] == rest == was[o + disp + i + 1..];
        i := i + 1;
      }
    }

    /** The state of the decoder within a block. */
    ghost function Now(dst: array<byte>, o: nat, p: nat, status: Status): State
      requires window.Valid()
      reads window, window.buf, stat, groupTable, symbolTable, dst
    {
      State(Model(), window.Window(), dst[..], o, p, status)
    }

    ghost predicate Within(dst: array<byte>, o: nat)
      reads window, stat, groupTable, symbolTable, dst
    {
      window.Valid() && Wf(Model()) && dst != window.buf && o <= dst.Length
    }

    /** Copies a match to the output and to the ring. */
    method CopyMatch(dst: array<byte>, o: nat, disp: nat, matchLen: nat, ghost p: nat)
      requires Within(dst, o) && disp < WINDOW && matchLen < WINDOW && o + matchLen <= dst.Length
      modifies window, window.buf, dst
      ensures Within(dst, o + matchLen)
      ensures (var s := old(Now(dst, o, p, Running));
        Now(dst, o + matchLen, p, Running) == Write(s, MatchBytes(s, disp, matchLen)))
    {
      hide Contents, CopyFrom, Copied, MatchBytes, Last, Write;
      ghost var s := Now(dst, o, p, Running);
      CopyOut(dst, o, disp, matchLen);
      ghost var m := dst[o..o + matchLen];
      assert dst[..] == s.dst[..o] + m + s.dst[o + matchLen..];
      if disp > 0 {
        CopyIsMatch(s, disp, m);
      } else {
        NothingCopied(s, matchLen);
      }
      window.ToBuf(dst[o..o + matchLen]);
      Written(s, m);
    }

    /** A literal. */
    method Literal(dst: array<byte>, o0: nat, symbol: int, ghost p: nat) returns (o: nat, status: Status)
      requires Within(dst, o0) && 0 <= symbol < 256
      modifies window, window.buf, dst
      ensures Within(dst, o) && Now(dst, o, p, status) == StepLiteral(old(Now(dst, o0, p, Running)), symbol)
    {
      hide Contents, Last;
      if o0 >= dst.Length { return o0, Rejected; }
      ghost var was := dst[..];
      dst[o0] := symbol;
      assert dst[..] == was[..o0] + [symbol] + was[o0 + 1..];
      window.ToBufByte(symbol);
      o, status := o0 + 1, Running;
    }

    /** A match. */
    method Match(dst: array<byte>, o0: nat, symbol: int, src: seq<byte>, k0: nat, ghost left: byte, ghost p: nat)
      returns (o: nat, k: nat, status: Status, ghost q: nat)
      requires Within(dst, o0) && Feeds(left, src, k0, p) && 256 <= symbol < RECALCULATE
      modifies window, window.buf, dst, `bits, `nBits
      ensures Within(dst, o) && p <= q <= 8 * k <= 8 * |src| && Loaded(bits, left, src, k, q)
      ensures status == Running ==> Feeds(left, src, k, q)
      ensures Now(dst, o, q, status) == StepMatch(Input(left, src), old(Now(dst, o0, p, Running)), symbol)
    {
      hide Contents, Last, Input, Holds, CopyFrom, Write, ReadLength, ReadDisp;
      o, status := o0, Rejected;
      var matchOver, disp;
      matchOver, k, q := GetLength(symbol, src, k0, left, p);
      if matchOver < 0 { return; }
      disp, k, q := GetDisp(src, k, left, q);
      if disp < 0 { return; }
      var matchLen := matchOver + LZMIN;
      if o + matchLen > dst.Length { return; }
      CopyMatch(dst, o, disp, matchLen, q);
      o, status := o + matchLen, Running;
    }

    /** Reads one symbol and does what it says. */
    method Turn(dst: array<byte>, o0: nat, src: seq<byte>, k0: nat, ghost left: byte, ghost p: nat)
      returns (o: nat, k: nat, status: Status, ghost q: nat)
      requires Within(dst, o0) && Feeds(left, src, k0, p)
      modifies window, window.buf, dst, stat, groupTable, symbolTable, `bits, `nBits
      ensures Within(dst, o) && q <= 8 * |src| && Loaded(bits, left, src, k, q)
      ensures status == Running ==> Feeds(left, src, k, q)
      ensures src != [] ==> 0 < k
      ensures Now(dst, o, q, status) == Step(Input(left, src), old(Now(dst, o0, p, Running)))
    {
      hide Contents, Last, Loaded, Input, MatchBytes, Write, ReadSymbol, ReadGroups, StepLiteral, StepMatch, Sorted;
      o := o0;
      var symbol;
      symbol, status, k, q := GetSymbol(src, k0, left, p);
      if status != Running { return; }
      ghost var counts := Counted(stat[..], symbol);
      stat[symbol] := Increment(stat[symbol]);
      assert stat[..] == counts;
      if symbol < 256 {
        o, status := Literal(dst, o, symbol, q);
      } else if symbol == SYMBOLS - 2 {
        SortedPermutes(counts);
        var pos;
        pos, k, q := Recalculate(src, k, left, q);
        if pos >= SYMBOLS + 255 { status := Broken; }
      } else if symbol == SYMBOLS - 1 {
        status := Done;
      } else {
        o, k, status, q := Match(dst, o, symbol, src, k, left, q);
      }
    }

    /** Decompresses a block into dst: exactly what the decoder's specification makes of its bits. */
    method Decompress(dst: array<byte>, src: seq<byte>) returns (status: Status, dstSz: nat, srcSz: nat)
      requires Valid() && dst != window.buf
      modifies this, window, window.buf, dst, stat, groupTable, symbolTable
      ensures Valid()
      ensures (var input := Input(old(Left()), src);
        var r := Run(input, State(old(Model()), old(window.Window()), old(dst[..]), 0, 0, Running));
        && Now(dst, dstSz, r.p, status) == r && srcSz == (r.p + 7) / 8
        && (if src == [] then Left() == old(Left()) else Left() == Value(Leftover(old(Left()), src, r.p))))
    {
      hide Contents, Last, Loaded, Input, Step, Run, Wf, Holds, ToBits, Value, Shr, Leftover;
      ghost var left := Left();
      ghost var input, s0 := Input(left, src), State(Model(), window.Window(), dst[..], 0, 0, Running);
      nBits := 0;
      status, dstSz, srcSz := Running, 0, 0;
      ghost var p: nat := 0;
      assert Loaded(bits, left, src, srcSz, p) by { StartLoaded(bits, left, src); }
      while status == Running
        invariant Within(dst, dstSz) && p <= |input| && Loaded(bits, left, src, srcSz, p)
        invariant status == Running ==> Feeds(left, src, srcSz, p)
        invariant Run(input, Now(dst, dstSz, p, status)) == Run(input, s0)
        invariant (status == Running && srcSz == 0) || (src != [] ==> 0 < srcSz)
        decreases if status == Running then 1 else 0, |input| - p
      {
        RunStep(input, Now(dst, dstSz, p, Running));
        dstSz, srcSz, status, p := Turn(dst, dstSz, src, srcSz, left, p);
      }
      RunStep(input, Now(dst, dstSz, p, status));
      Ended(left, src, srcSz, p);
    }

    /** What a block leaves in the register. */
    lemma Ended(left: byte, src: seq<byte>, k: nat, p: nat)
      requires Loaded(bits, left, src, k, p) && (src != [] ==> 0 < k)
      ensures k == (p + 7) / 8 && p <= 8 * |src| && Holds(bits, ToBits(Left(), 8))
      ensures Left() == if src == [] then left else Value(Leftover(left, src, p))
    {
      hide ToBits, Value, Shr, Holds, Input, Leftover;
      if 0 < k {
        LoadedLeft(bits, left, src, k, p);
      } else {
        Unchanged(bits, left);
      }
    }
  }

  lemma Unchanged(register: uint32, left: byte)
    requires Holds(register, ToBits(left, 8))
    ensures Shr(register, 24) == left
  {
    hide ToBits, Value, Shr, Holds;
    HoldsTop(register, ToBits(left, 8), 8);
    assert ToBits(left, 8)[..8] == ToBits(left, 8);
    assert Pow2(8) == 256;
    ValueToBits(left, 8);
  }

  lemma StartLoaded(register: uint32, left: byte, src: seq<byte>)
    requires Holds(register, ToBits(left, 8))
    ensures Loaded(register, left, src, 0, 0)
  {
  }

  lemma RunStep(bits: seq<bool>, s: State)
    requires Ok(bits, s)
    ensures s.status != Running ==> Run(bits, s) == s
    ensures s.status == Running ==> Ok(bits, Step(bits, s)) && Run(bits, s) == Run(bits, Step(bits, s))
    ensures s.status == Running && Step(bits, s).status == Running ==> s.p + 4 <= Step(bits, s).p
  {
    hide Step;
    if s.status == Running { StepOk(bits, s); }
  }

  lemma FromRing(m: seq<byte>, ring: seq<byte>, pos: int, disp: nat)
    requires |ring| == WINDOW && |m| <= disp < WINDOW && 1 <= disp
    requires forall i :: 0 <= i < |m| ==> m[i] == ByteAt(ring, pos - disp + i)
    ensures Copied(m, Contents(ring, pos), disp)
  {
    hide Slot;
    forall i | 0 <= i < |m| ensures m[i] == Contents(ring, pos)[WINDOW - disp + i] {
      SlotShift(pos - disp + i, 1);
      assert pos + (WINDOW - disp + i) == pos - disp + i + WINDOW * 1;
      assert Contents(ring, pos)[WINDOW - disp + i] == ByteAt(ring, pos + (WINDOW - disp + i));
    }
  }

  function After(groups: seq<Group>, r: GroupsRead): GroupsRead {
    r.(groups := groups + r.groups)
  }

  lemma ReadGroupsStep(bits: seq<bool>, p: nat, i: nat, last: nat, pos: nat, before: seq<Group>)
    requires p <= |bits| && i < GROUPS
    ensures (var u := Unary(bits, p); var w := last + u.0;
      After(before, ReadGroups(bits, p, i, last, pos))
        == After(before + [Group(w, pos)], ReadGroups(bits, u.1, i + 1, w, pos + Pow2(w))))
  {
    hide Unary, Pow2;
    var u := Unary(bits, p);
    var w := last + u.0;
    var r := ReadGroups(bits, u.1, i + 1, w, pos + Pow2(w));
    assert before + ([Group(w, pos)] + r.groups) == before + [Group(w, pos)] + r.groups;
  }

  lemma ReadGroupsEnd(bits: seq<bool>, p: nat, last: nat, pos: nat, groups: seq<Group>)
    requires p <= |bits|
    ensures After(groups, ReadGroups(bits, p, GROUPS, last, pos)) == GroupsRead(groups, p, pos)
  {
  }

  lemma PeekOne(bits: seq<bool>, p: nat)
    requires p < |bits|
    ensures Peek(bits, p, 1) == if bits[p] then 1 else 0
  {
    assert bits[p..p + 1] == [] + [bits[p]];
    ValueSnoc([], bits[p]);
  }

  lemma NothingLeft()
    ensures Shr(0, 24) % 256 == 0 && Holds(0, ToBits(0, 8))
  {
    hide ToBits, Value, Shr, Holds;
    HoldsNothing();
    HoldsPadded(0, [], 8);
    assert [] + Zeros(8) == Zeros(8);
    HoldsTop(0, Zeros(8), 8);
    assert Zeros(8)[..8] == Zeros(8);
    ZerosValue(8);
    BitsOf(0, Zeros(8));
  }
}
