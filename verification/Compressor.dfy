/** The compressor: match search over the ring, guided by a table of hints, and the choice of which
    bytes go out as literals and which as matches. */
module Compressors {
  import opened Bits
  import opened Hashes
  import opened EncoderStats
  import opened Adaptive
  import opened Decoding
  import opened Tokens
  import opened Encoders
  import opened Windows
  import opened Lz

  const LZSKIPHASH: nat := 1024
  const MAX_MATCH: nat := LZMIN + MAX_OVER

  // ----- the table of hints

  /** The table index of the bytes at x. */
  function Bucket(src: seq<byte>, x: nat): (i: nat)
    requires x + LZMATCH <= |src|
    ensures i < LZTABLESIZE
  {
    HashIndex(HashAt(src, x))
  }

  /** No position from a to b has this table index. */
  ghost predicate NoneIn(src: seq<byte>, a: nat, b: nat, i: nat)
    requires b + LZMATCH <= |src| + 1
  {
    forall y :: a <= y < b ==> Bucket(src, y) != i
  }

  /** x is the last position from a to b with this table index. */
  ghost predicate LastIn(src: seq<byte>, a: nat, b: nat, i: nat, x: nat)
    requires b + LZMATCH <= |src| + 1
  {
    a <= x < b && Bucket(src, x) == i && NoneIn(src, x + 1, b, i)
  }

  /** The positions from a to b have left their hints: at every index, but for one, stands the last of
      them that has this index, and what was there before if none has. */
  ghost predicate Left(was: seq<nat>, now: seq<nat>, src: seq<byte>, off: int, a: nat, b: nat, but: int)
    requires b + LZMATCH <= |src| + 1
  {
    |now| == |was| && forall i :: 0 <= i < |was| && i != but ==> LeftAt(was[i], now[i], src, off, a, b, i)
  }

  ghost predicate LeftAt(was: nat, now: nat, src: seq<byte>, off: int, a: nat, b: nat, i: nat)
    requires b + LZMATCH <= |src| + 1
  {
    && (forall x: nat :: LastIn(src, a, b, i, x) ==> now == Slot(off + WINDOW + x))
    && (NoneIn(src, a, b, i) ==> now == was)
  }

  lemma LeftNothing(was: seq<nat>, src: seq<byte>, off: int, a: nat)
    requires a + LZMATCH <= |src| + 1
    ensures Left(was, was, src, off, a, a, -1)
  {
  }

  lemma LeftOne(was: seq<nat>, now: seq<nat>, src: seq<byte>, off: int, a: nat, b: nat)
    requires a <= b && b + LZMATCH <= |src| && |was| == LZTABLESIZE && Left(was, now, src, off, a, b, -1)
    ensures Left(was, now[Bucket(src, b) := Slot(off + WINDOW + b)], src, off, a, b + 1, -1)
  {
    hide Slot, Bucket;
    var k, e := Bucket(src, b), b + 1;
    var next := now[k := Slot(off + WINDOW + b)];
    forall i | 0 <= i < |was| ensures LeftAt(was[i], next[i], src, off, a, e, i) {
      assert LeftAt(was[i], now[i], src, off, a, b, i);
      forall x: nat | LastIn(src, a, e, i, x) ensures next[i] == Slot(off + WINDOW + x) {
        if x < b { assert LastIn(src, a, b, i, x); }
      }
      if NoneIn(src, a, e, i) { assert NoneIn(src, a, b, i) && i != k; }
    }
  }

  /** Positions from q on leave their hints again, and further ones. */
  lemma LeftAgain(was: seq<nat>, mid: seq<nat>, now: seq<nat>, src: seq<byte>, off: int, n: nat, q: nat, e: nat)
    requires q <= n <= e && e + LZMATCH <= |src| + 1
    requires Left(was, mid, src, off, 0, n, -1) && Left(mid, now, src, off, q, e, -1)
    ensures Left(was, now, src, off, 0, e, -1)
  {
    hide Slot, Bucket;
    forall i | 0 <= i < |was| ensures LeftAt(was[i], now[i], src, off, 0, e, i) {
      assert LeftAt(was[i], mid[i], src, off, 0, n, i) && LeftAt(mid[i], now[i], src, off, q, e, i);
      forall x: nat | LastIn(src, 0, e, i, x) ensures now[i] == Slot(off + WINDOW + x) {
        if x < q {
          assert LastIn(src, 0, n, i, x) && NoneIn(src, q, e, i);
        } else {
          assert LastIn(src, q, e, i, x);
        }
      }
      if NoneIn(src, 0, e, i) { assert NoneIn(src, 0, n, i) && NoneIn(src, q, e, i); }
    }
  }

  /** Of the last position of a block it is open whether its hint stays. */
  lemma LeftShort(was: seq<nat>, mid: seq<nat>, now: seq<nat>, src: seq<byte>, off: int, q: nat, e: nat)
    requires q <= e && e + LZMATCH <= |src|
    requires Left(was, mid, src, off, 0, e + 1, -1) && Left(mid, now, src, off, q, e, -1)
    ensures Left(was, now, src, off, 0, e, Bucket(src, e))
  {
    hide Slot, Bucket;
    forall i | 0 <= i < |was| && i != Bucket(src, e) ensures LeftAt(was[i], now[i], src, off, 0, e, i) {
      assert LeftAt(was[i], mid[i], src, off, 0, e + 1, i) && LeftAt(mid[i], now[i], src, off, q, e, i);
      forall x: nat | LastIn(src, 0, e, i, x) ensures now[i] == Slot(off + WINDOW + x) {
        if x < q {
          assert LastIn(src, 0, e + 1, i, x) && NoneIn(src, q, e, i);
        } else {
          assert LastIn(src, q, e, i, x);
        }
      }
      if NoneIn(src, 0, e, i) { assert NoneIn(src, 0, e + 1, i) && NoneIn(src, q, e, i); }
    }
  }

  /** A lookup leaves the hint of its position, possibly again. */
  lemma LeftHere(was: seq<nat>, now: seq<nat>, src: seq<byte>, off: int, n: nat, q: nat)
    requires q <= n <= q + 1 && q + LZMATCH <= |src| && |was| == LZTABLESIZE && Left(was, now, src, off, 0, n, -1)
    ensures Left(was, now[Bucket(src, q) := Slot(off + WINDOW + q)], src, off, 0, q + 1, -1)
  {
    LeftNothing(now, src, off, q);
    LeftOne(now, now, src, off, q, q);
    LeftAgain(was, now, now[Bucket(src, q) := Slot(off + WINDOW + q)], src, off, n, q, q + 1);
  }

  /** The hints left when the block has been put up to `at`. */
  ghost predicate LeftTo(was: seq<nat>, now: seq<nat>, src: seq<byte>, off: int, at: nat)
    requires LZMATCH <= |src|
  {
    if at + LZMATCH <= |src| then
      Left(was, now, src, off, 0, at, -1) || Left(was, now, src, off, 0, at + 1, -1)
    else
      Left(was, now, src, off, 0, |src| - LZMATCH, Bucket(src, |src| - LZMATCH))
  }

  lemma LeftBut(was: seq<nat>, now: seq<nat>, src: seq<byte>, off: int, e: nat, but: int)
    requires e + LZMATCH <= |src| + 1 && Left(was, now, src, off, 0, e, -1)
    ensures Left(was, now, src, off, 0, e, but)
  {
  }

  /** After a match the positions inside it have left theirs, from q on, n having done so before. */
  lemma LeftMatch(was: seq<nat>, mid: seq<nat>, now: seq<nat>, src: seq<byte>, off: int, n: nat, q: nat, tail: int,
                  next: nat)
    requires q <= n <= next <= |src| && LZMATCH <= |src| && n + LZMATCH <= |src| + 1
    requires Left(was, mid, src, off, 0, n, -1)
    requires tail == if |src| - q - LZMATCH < next - q then |src| - q - LZMATCH else next - q
    requires if 0 < tail then Left(mid, now, src, off, q, q + tail, -1) else now == mid
    ensures LeftTo(was, now, src, off, next)
  {
    hide Left;
    var e := |src| - LZMATCH;
    if next <= e {
      if next == q { LeftNothing(mid, src, off, q); }
      LeftAgain(was, mid, now, src, off, n, q, next);
    } else {
      if tail <= 0 { LeftNothing(mid, src, off, if q <= e then q else e); }
      if n <= e {
        LeftAgain(was, mid, now, src, off, n, q, e);
        LeftBut(was, now, src, off, e, Bucket(src, e));
      } else {
        LeftShort(was, mid, now, src, off, if q <= e then q else e, e);
      }
    }
  }

  lemma LeftLookup(was: seq<nat>, now: seq<nat>, src: seq<byte>, off: int, at: nat)
    requires at + LZMATCH <= |src| && |was| == LZTABLESIZE && LeftTo(was, now, src, off, at)
    ensures |now| == LZTABLESIZE
    ensures Left(was, now[Bucket(src, at) := Slot(off + WINDOW + at)], src, off, 0, at + 1, -1)
  {
    if Left(was, now, src, off, 0, at, -1) {
      LeftHere(was, now, src, off, at, at);
    } else {
      LeftHere(was, now, src, off, at + 1, at);
    }
  }

  /** After raw bytes, up to the last position looked up or to the block's end. */
  lemma LeftRaw(was: seq<nat>, now: seq<nat>, src: seq<byte>, off: int, at: nat, next: nat)
    requires at + LZMATCH <= |src| && Left(was, now, src, off, 0, at + 1, -1)
    requires next == at || (next == |src| && at + LZMATCH == |src|)
    ensures LeftTo(was, now, src, off, next)
  {
    if next == |src| {
      LeftNothing(now, src, off, at);
      LeftShort(was, now, now, src, off, at, at);
    }
  }

  /** What a whole block has left in the table; less than LZMATCH bytes leave nothing. */
  ghost predicate LeftBehind(was: seq<nat>, now: seq<nat>, src: seq<byte>, off: int) {
    if LZMATCH <= |src| then Left(was, now, src, off, 0, |src| - LZMATCH, Bucket(src, |src| - LZMATCH))
    else now == was
  }

  /** As many bytes repeat as a match needs. */
  ghost predicate RepeatsEnough(stream: seq<byte>, c: nat, disp: nat) {
    disp <= c && c + LZMIN <= |stream| && forall i :: c <= i < c + LZMIN ==> stream[i] == stream[i - disp]
  }

  /** A repeat that cannot go on: it is as long as a match may be, the block ends, or the next bytes
      differ. */
  ghost predicate Longest(stream: seq<byte>, c: nat, len: nat, disp: nat) {
    len >= MAX_MATCH || c + len >= |stream| || (disp <= c + len && stream[c + len] != stream[c + len - disp])
  }

  class Compressor {
    const window: LZBuffer
    const table: array<nat>
    const stat: EncoderStat
    /** The number of bytes sent so far. */
    ghost var base: nat

    constructor (memory: seq<byte>)
      requires |memory| == WINDOW
      ensures Valid() && Stat() == InitialEnc() && window.Window() == Contents(memory, 0) && base == 0
      ensures fresh(window) && fresh(window.buf) && fresh(table) && fresh(stat) && fresh(stat.stat)
        && fresh(stat.symbolTable)
    {
      window := new LZBuffer(memory);
      table := new nat[LZTABLESIZE](_ => NO_HINT);
      stat := new EncoderStat();
      base := 0;
      new;
      InitiallyInStep();
      assert Stat() == InitialEnc();
    }

    /** Forgets the statistics and the hints, but not the ring. */
    method Reset()
      requires Valid()
      modifies table, stat, stat.stat, stat.symbolTable
      ensures Valid() && Stat() == InitialEnc()
    {
      forall i | 0 <= i < LZTABLESIZE { table[i] := NO_HINT; }
      stat.Reset();
      InitiallyInStep();
      assert Stat() == InitialEnc();
    }

    /** With WINDOW bytes of the past before a block, the stream position of the first byte ever sent. */
    ghost function First(): int
      reads `base
    {
      WINDOW - base
    }

    /** Every hint names a position from the first byte on, as seen from position a. */
    ghost predicate Hints(off: int, a: int)
      reads table, `base
    {
      table.Length == LZTABLESIZE && forall i :: 0 <= i < table.Length ==> Behind(off, a, First(), table[i])
    }

    lemma HintsOn(off: int, a: int, b: int)
      requires Hints(off, a) && a <= b
      ensures Hints(off, b)
    {
      hide Behind;
      forall i | 0 <= i < table.Length ensures Behind(off, b, First(), table[i]) {
        BehindOn(off, a, b, First(), table[i]);
      }
    }

    /** The hints as seen from the block that follows. */
    lemma HintsNext(off: int, a: int, pos: int)
      requires Hints(off, a) && Slot(pos) == Slot(off + a)
      ensures forall i :: 0 <= i < table.Length ==> Behind(pos - WINDOW, WINDOW, WINDOW - (a - First()), table[i])
    {
      hide Behind, Slot;
      forall i | 0 <= i < table.Length ensures Behind(pos - WINDOW, WINDOW, WINDOW - (a - First()), table[i]) {
        BehindNext(off, a, First(), pos, table[i]);
      }
    }

    /** A match may copy from disp places back: the stream repeats there, and not before the literals that
        a match may have been extended over. */
    ghost predicate Source(stream: seq<byte>, c: nat, len: nat, disp: nat)
      reads `base
    {
      Repeats(stream, c, len, disp) && First() - MAX_RAW <= c - disp
    }

    ghost function Stat(): Enc
      reads stat, stat.stat, stat.symbolTable
    {
      Enc(stat.stat[..], stat.nextStat, stat.symbolTable[..])
    }

    ghost predicate Valid()
      reads window, table, `base, stat, stat.stat, stat.symbolTable
    {
      window.Valid() && Hints(window.bufPos - WINDOW, WINDOW) && stat.Valid() && Bounded(Stat())
        && FitTable(Stat().table)
    }

    /** The cursor stands at stream position c; everything before a is in the ring. */
    ghost predicate Cursor(stream: seq<byte>, off: int, c: nat, a: nat)
      reads window, window.buf
    {
      && window.Valid() && WINDOW <= c <= a
      && Follows(window.buf[..], stream, off, a) && Slot(window.bufPos) == Slot(off + c)
    }

    // ----- the match search

    /** Where the ring repeats the stream at the cursor, from a hinted position on: first inside the
        ring, then, once the match has caught up with the cursor, inside the block. */
    method ForwardMatch(src: seq<byte>, p: nat, hashPos: nat, ghost stream: seq<byte>, ghost off: int)
      returns (matchLen: nat)
      requires p <= |src| && hashPos < WINDOW && hashPos != Slot(window.bufPos)
      requires |stream| == WINDOW + |src| && stream[WINDOW..] == src && Cursor(stream, off, WINDOW + p, WINDOW + p)
      ensures matchLen <= MAX_MATCH && p + matchLen <= |src|
      ensures Repeats(stream, WINDOW + p, matchLen, Slot(Slot(window.bufPos) - hashPos))
      ensures Longest(stream, WINDOW + p, matchLen, Slot(Slot(window.bufPos) - hashPos))
    {
      hide Follows, Contents, ByteAt, Slot, Stored, Repeats;
      var wrapBufPos := Slot(window.bufPos);
      var disp := Slot(wrapBufPos - hashPos);
      ghost var c := WINDOW + p;
      HintDisp(window.bufPos, hashPos, off + c);
      var matchLimit := disp;
      if |src| - p < matchLimit { matchLimit := |src| - p; }
      if MAX_MATCH < matchLimit { matchLimit := MAX_MATCH; }
      matchLen := window.NMatch(hashPos, src[p..], matchLimit);
      RingRepeats(window.buf[..], stream, off, c, hashPos, disp, matchLen, src[p..]);
      if matchLen < disp { RingByte(window.buf[..], stream, off, c, hashPos, disp, matchLen); }
      assert matchLen < |src| - p ==> src[p..][matchLen] == src[p + matchLen] == stream[c + matchLen];
      CaughtUp(window.bufPos, hashPos, matchLen);
      if Slot(hashPos + matchLen) == wrapBufPos {
        assert matchLen != 0 && matchLen == disp;
        var xtraMatch := Overlap(src, p, matchLen, stream);
        matchLen := matchLen + xtraMatch;
      }
    }

    /** The match goes on inside the block. */
    static method Overlap(src: seq<byte>, p: nat, matchLen: nat, ghost stream: seq<byte>) returns (xtraMatch: nat)
      requires p + matchLen <= |src| && matchLen <= MAX_MATCH
      requires |stream| == WINDOW + |src| && stream[WINDOW..] == src && Repeats(stream, WINDOW + p, matchLen, matchLen)
      ensures matchLen + xtraMatch <= MAX_MATCH && p + matchLen + xtraMatch <= |src|
      ensures Repeats(stream, WINDOW + p, matchLen + xtraMatch, matchLen)
      ensures Longest(stream, WINDOW + p, matchLen + xtraMatch, matchLen)
    {
      ghost var c := WINDOW + p;
      var xtraMatchLimit := MAX_MATCH - matchLen;
      if |src| - p - matchLen < xtraMatchLimit { xtraMatchLimit := |src| - p - matchLen; }
      xtraMatch := 0;
      while xtraMatch < xtraMatchLimit
        invariant xtraMatch <= xtraMatchLimit
        invariant Repeats(stream, c, matchLen + xtraMatch, matchLen)
      {
        assert stream[c + matchLen + xtraMatch] == src[p + xtraMatch + matchLen];
        assert stream[c + xtraMatch] == src[p + xtraMatch];
        if src[p + xtraMatch] != src[p + xtraMatch + matchLen] { break; }
        RepeatsExtend(stream, c, matchLen, matchLen + xtraMatch);
        xtraMatch := xtraMatch + 1;
      }
    }

    /** Extends a match to the left, over bytes not yet sent, as far as the ring still holds what it
        is compared with. */
    method BackwardMatch(src: seq<byte>, p: nat, nRaw: nat, hashPos: nat, matchLen: nat, ghost stream: seq<byte>,
                         ghost off: int)
      returns (xtraMatch: nat)
      requires nRaw <= p <= |src| && hashPos < WINDOW && matchLen <= MAX_MATCH
      requires |stream| == WINDOW + |src| && stream[WINDOW..] == src && Cursor(stream, off, WINDOW + p, WINDOW + p)
      requires Repeats(stream, WINDOW + p, matchLen, Slot(window.bufPos - hashPos))
      ensures xtraMatch <= nRaw && matchLen + xtraMatch <= MAX_MATCH
      ensures xtraMatch > 0 ==> matchLen + xtraMatch <= Slot(window.bufPos - hashPos)
      ensures Repeats(stream, WINDOW + p - xtraMatch, matchLen + xtraMatch, Slot(window.bufPos - hashPos))
      ensures var d, c := Slot(window.bufPos - hashPos), WINDOW + p - xtraMatch;
        || xtraMatch == nRaw || matchLen + xtraMatch >= MAX_MATCH || matchLen + xtraMatch >= d
        || d + xtraMatch >= WINDOW
        || stream[c - 1] != stream[c - 1 - d]
    {
      hide Contents, Slot, Stored, ByteAt, Follows;
      var d := Slot(window.bufPos - hashPos);
      ghost var c := WINDOW + p;
      assert 1 <= d < WINDOW <= c <= |stream|;
      hide Repeats;
      var xtraMatchLimit: int := MAX_MATCH - matchLen;
      if nRaw < xtraMatchLimit { xtraMatchLimit := nRaw; }
      if d - matchLen < xtraMatchLimit { xtraMatchLimit := d - matchLen; }
      if WINDOW - d < xtraMatchLimit { xtraMatchLimit := WINDOW - d; }
      xtraMatch := 0;
      while xtraMatch < xtraMatchLimit
        invariant xtraMatch == 0 || xtraMatch <= xtraMatchLimit
        invariant Repeats(stream, c - xtraMatch, matchLen + xtraMatch, d)
      {
        var q := (hashPos - xtraMatch - 1) % WORD;
        RingBefore(window.buf[..], stream, off, c, window.bufPos, hashPos, xtraMatch);
        assert stream[c - xtraMatch - 1] == src[p - xtraMatch - 1];
        if window.buf[Slot(q)] != src[p - xtraMatch - 1] { break; }
        RepeatsBefore(stream, c - xtraMatch, d, matchLen + xtraMatch);
        xtraMatch := xtraMatch + 1;
      }
    }

    /** The block has been put up to `at`: all positions before have left their hints, and the hash is
        that of the bytes there, if as many are left. */
    ghost predicate Ready(was: seq<nat>, src: seq<byte>, off: int, at: nat, hash: uint32)
      reads table
    {
      && LZMATCH <= |src| && LeftTo(was, table[..], src, off, at)
      && (at + LZMATCH <= |src| ==> hash == HashAt(src, at))
    }

    /** At the hint for this hash the ring repeats at least LZMIN bytes of the stream. */
    ghost predicate Promising(stream: seq<byte>, c: nat, hash: uint32)
      reads table, window
    {
      table.Length == LZTABLESIZE &&
      var hint := table[HashIndex(hash)];
      hint != NO_HINT && hint != Slot(window.bufPos) && RepeatsEnough(stream, c, Slot(window.bufPos - hint))
    }

    /** Bytes that occurred before in the block, at x, are recalled: the hint for them leads to a match,
        unless a position in between has the same table index. */
    lemma Recalled(was: seq<nat>, src: seq<byte>, stream: seq<byte>, off: int, at: nat, x: nat)
      requires at + LZMATCH <= |src| && |stream| == WINDOW + |src| && stream[WINDOW..] == src
      requires |was| == LZTABLESIZE && Left(was, table[..], src, off, 0, at, -1)
      requires window.Valid() && Slot(window.bufPos) == Slot(off + WINDOW + at)
      requires x < at < x + WINDOW && src[x..x + LZMATCH] == src[at..at + LZMATCH]
      requires NoneIn(src, x + 1, at, Bucket(src, at))
      ensures Promising(stream, WINDOW + at, HashAt(src, at))
    {
      hide Slot, HashIndex, HashOf;
      HashSame(0, src, x, at, LZMATCH);
      var i, d := Bucket(src, at), at - x;
      assert LastIn(src, 0, at, i, x) && LeftAt(was[i], table[i], src, off, 0, at, i);
      HintBack(window.bufPos, off + WINDOW + at, d);
      var c := WINDOW + at;
      forall k | c <= k < c + LZMIN ensures stream[k] == stream[k - d] {
        assert src[x..x + LZMATCH][k - c] == src[at..at + LZMATCH][k - c];
        assert stream[WINDOW..][k - WINDOW] == stream[k] && stream[WINDOW..][k - d - WINDOW] == stream[k - d];
      }
    }

    /** Reads the hint for the bytes at p, and leaves that of p itself. */
    method SwapHint(src: seq<byte>, p: nat, hash: uint32, ghost off: int, ghost was: seq<nat>) returns (hint: nat)
      requires p + LZMATCH <= |src| && |was| == LZTABLESIZE && Ready(was, src, off, p, hash)
      requires Hints(off, WINDOW + p) && First() <= WINDOW + p && Slot(window.bufPos) == Slot(off + WINDOW + p)
      modifies table
      ensures Hints(off, WINDOW + p) && Left(was, table[..], src, off, 0, p + 1, -1)
      ensures hint == old(table[HashIndex(hash)]) && Behind(off, WINDOW + p, First(), hint)
    {
      hide Slot, Behind, HashIndex, HashAt, Left, LeftTo;
      LeftLookup(was, table[..], src, off, p);
      var hash2 := HashPos(hash);
      hint := table[hash2];
      BehindAt(off, WINDOW + p, WINDOW + p, First(), window.bufPos);
      table[hash2] := Slot(window.bufPos);
    }

    /** Looks up the hint for the cursor and leaves one; a match that reaches back over bytes already
        in the ring moves the cursor back. */
    method FindMatch(src: seq<byte>, at: nat, nRaw0: nat, hash0: uint32, ghost stream: seq<byte>, ghost off: int,
                     ghost was: seq<nat>)
      returns (matchLen: nat, hashPos: nat, nRaw: nat, hash: uint32, forced: bool)
      requires at + nRaw0 + LZMATCH <= |src| && nRaw0 <= MAX_RAW && Hints(off, WINDOW + at + nRaw0)
      requires |stream| == WINDOW + |src| && stream[WINDOW..] == src
      requires Cursor(stream, off, WINDOW + at + nRaw0, WINDOW + at + nRaw0)
      requires |was| == LZTABLESIZE && Ready(was, src, off, at + nRaw0, hash0)
      modifies window`bufPos, table
      ensures Left(was, table[..], src, off, 0, at + nRaw0 + 1, -1)
      ensures Hints(off, WINDOW + at + nRaw0) && nRaw <= nRaw0 && matchLen <= MAX_MATCH
      ensures Cursor(stream, off, WINDOW + at + nRaw, WINDOW + at + nRaw0)
      ensures matchLen > 0 ==> Source(stream, WINDOW + at + nRaw, matchLen, Slot(Slot(window.bufPos) - hashPos))
      ensures if forced then nRaw < nRaw0 && nRaw0 - nRaw + LZMIN - 1 <= matchLen
              else nRaw == nRaw0 && window.bufPos == old(window.bufPos)
      ensures hash == HashAt(src, at + nRaw) && at + nRaw + matchLen <= |src|
      ensures var hint, disp := old(table[HashIndex(hash0)]), Slot(Slot(window.bufPos) - hashPos);
        if hint == NO_HINT || hint == old(Slot(window.bufPos)) then matchLen == 0
        else disp == Slot(old(window.bufPos) - hint) && Longest(stream, WINDOW + at + nRaw, matchLen, disp)
      ensures old(Promising(stream, WINDOW + at + nRaw0, hash0)) ==> LZMIN <= matchLen
    {
      hide Follows, Contents, ByteAt, Slot, Stored, Repeats, Behind, HashIndex, HashAt, RepeatsEnough, MAX_MATCH,
        Left, LeftTo, Longest;
      ghost var a := WINDOW + at + nRaw0;
      nRaw, hash, forced := nRaw0, hash0, false;
      hashPos := SwapHint(src, at + nRaw0, hash, off, was);
      var wrapBufPos := Slot(window.bufPos);
      matchLen := 0;
      if hashPos != NO_HINT && hashPos != wrapBufPos {
        HintReach(off, a, First(), window.bufPos, hashPos);
        matchLen := ForwardMatch(src, at + nRaw, hashPos, stream, off);
        DistanceWrap(window.bufPos, hashPos);
        ghost var disp := Slot(window.bufPos - hashPos);
        if RepeatsEnough(stream, a, disp) { PromiseKept(stream, a, matchLen, disp); }
        if matchLen >= LZMIN - 1 {
          var xtraMatch := BackwardMatch(src, at + nRaw, nRaw, hashPos, matchLen, stream, off);
          if xtraMatch > 0 {
            assert matchLen + xtraMatch >= LZMIN;
            MoveBack(window.bufPos, hashPos, off + WINDOW + at + nRaw, xtraMatch);
            LongestBack(stream, a, matchLen, disp, xtraMatch);
            nRaw := nRaw - xtraMatch;
            window.bufPos := (window.bufPos - xtraMatch) % WORD;
            hashPos := (hashPos - xtraMatch) % WORD;
            matchLen := matchLen + xtraMatch;
            hash := CalcHash(src, at + nRaw);
            forced := true;
          }
        }
      }
    }

    /** Leaves hints for the positions inside a match, after the one at p. */
    method UpdateTable(hash0: uint32, src: seq<byte>, p: nat, pos: int, len: int, ghost off: int, ghost a: int)
      returns (hash: uint32)
      requires Hints(off, a) && First() <= WINDOW + p + 1 && Slot(pos) == Slot(off + WINDOW + p + 1)
      requires 0 < len ==> p + 1 + len + LZMATCH <= |src| && hash0 == HashAt(src, p) && WINDOW + p + 1 + len <= a
      modifies table
      ensures Hints(off, a)
      ensures 0 < len ==> hash == HashAt(src, p + 1 + len)
      ensures if 0 < len <= LZSKIPHASH then Left(old(table[..]), table[..], src, off, p + 1, p + 1 + len, -1)
              else table[..] == old(table[..])
    {
      hide Slot, Behind, Left, HashIndex, HashAt;
      if len <= 0 { return 0; }
      if len > LZSKIPHASH {
        hash := CalcHash(src, p + 1 + len);
        return;
      }
      hash := UpdateHashEx(hash0, src, p);
      ghost var x := WINDOW + p + 1;
      LeftNothing(table[..], src, off, p + 1);
      var i := 0;
      while i < len
        invariant 0 <= i <= len && Hints(off, a) && hash == HashAt(src, p + 1 + i)
        invariant Left(old(table[..]), table[..], src, off, p + 1, p + 1 + i, -1)
      {
        var hash2 := HashPos(hash);
        SlotCongruent(pos, off + x, i);
        BehindAt(off, x + i, a, First(), pos + i);
        LeftOne(old(table[..]), table[..], src, off, p + 1, p + 1 + i);
        table[hash2] := Slot(pos + i);
        hash := UpdateHashEx(hash, src, p + 1 + i);
        i := i + 1;
      }
    }

    /** The block up to `at` has been put. */
    ghost predicate Sent(coder: Encoder, stream: seq<byte>, src: seq<byte>, at: nat)
      reads coder, coder.stat, coder.stat.stat, coder.stat.symbolTable, `base
    {
      && coder.stat == stat && coder.Written()
      && at <= |src| && |stream| == WINDOW + |src| && stream[WINDOW..] == src
      && ValidTokens(coder.toks) && Expand(stream[..WINDOW], coder.toks) == stream[..WINDOW + at]
      && Within(stream[..WINDOW], coder.toks, First() - MAX_RAW)
    }

    /** Puts the literals since `at` and a match at the cursor; the ring, in which bytes up to a were
        written ahead, follows the stream again. */
    method EmitMatch(coder: Encoder, src: seq<byte>, at: nat, nRaw: nat, matchLen: nat, disp: nat,
                     ghost stream: seq<byte>, ghost off: int, ghost a: nat)
      requires Sent(coder, stream, src, at) && nRaw <= MAX_RAW && LZMIN <= matchLen <= MAX_MATCH
      requires Cursor(stream, off, WINDOW + at + nRaw, a) && a <= WINDOW + at + nRaw + matchLen
      requires Source(stream, WINDOW + at + nRaw, matchLen, disp)
      modifies coder, stat, stat.stat, stat.symbolTable, window, window.buf
      ensures Sent(coder, stream, src, at + nRaw + matchLen) && MatchLast(coder.toks, matchLen)
      ensures Cursor(stream, off, WINDOW + at + nRaw + matchLen, WINDOW + at + nRaw + matchLen)
    {
      hide Expand, Follows, Contents, Slot, Prints, Holds, Unpack, Last, Within;
      ghost var c := WINDOW + at + nRaw;
      BlockSlice(stream, src, at, nRaw);
      ExpandMatch(stream[..WINDOW], coder.toks, stream, WINDOW + at, c, matchLen, disp, First() - MAX_RAW);
      coder.PutMatch(src[at..at + nRaw], matchLen - LZMIN, disp);
      ghost var before, pos := window.buf[..], window.bufPos;
      BlockSlice(stream, src, at + nRaw, matchLen);
      window.ToBuf(src[at + nRaw..at + nRaw + matchLen]);
      StoreFollows(before, window.buf[..], stream, off, a, c, pos, matchLen);
      SlotWrap(pos + matchLen);
      SlotCongruent(pos, off + c, matchLen);
    }

    /** A match found one byte back, kept in case the one at the cursor is longer. */
    ghost predicate LazyMatch(stream: seq<byte>, off: int, c: nat, len: nat, hashPos: int, pos: int)
      reads `base
    {
      && len <= MAX_MATCH && WINDOW < c && Slot(pos) == Slot(off + c - 1)
      && Source(stream, c - 1, len, Slot(pos - hashPos))
    }

    /** Takes the byte at the cursor into the ring, and moves the hash on. */
    method Advance(src: seq<byte>, p: nat, hash0: uint32, ghost stream: seq<byte>, ghost off: int,
                   ghost was: seq<nat>)
      returns (hash: uint32)
      requires p + LZMATCH < |src| && hash0 == HashAt(src, p) && Left(was, table[..], src, off, 0, p + 1, -1)
      requires Hints(off, WINDOW + p) && |stream| == WINDOW + |src| && stream[WINDOW..] == src
      requires Cursor(stream, off, WINDOW + p, WINDOW + p)
      modifies window, window.buf
      ensures Cursor(stream, off, WINDOW + p + 1, WINDOW + p + 1)
      ensures window.bufPos == (old(window.bufPos) + 1) % WORD
      ensures Hints(off, WINDOW + p + 1) && Ready(was, src, off, p + 1, hash)
    {
      hide Follows, Contents, Slot, Last, HashAt, Left, Hints;
      hash := UpdateHashEx(hash0, src, p);
      HintsOn(off, WINDOW + p, WINDOW + p + 1);
      ghost var before, pos: int, c := window.buf[..], window.bufPos, WINDOW + p;
      window.ToBufByte(src[p]);
      BlockSlice(stream, src, p, 1);
      assert src[p..p + 1] == [src[p]];
      StoreFollows(before, window.buf[..], stream, off, c, c, pos, 1);
      SlotWrap(pos + 1);
      SlotCongruent(pos, off + c, 1);
    }

    /** Puts a match and leaves hints for the positions inside it, the first `skip` of which have theirs
        already. */
    method TakeMatch(coder: Encoder, src: seq<byte>, at: nat, nRaw: nat, matchLen: nat, disp: nat, skip: nat,
                     hash0: uint32, ghost stream: seq<byte>, ghost off: int, ghost a: nat, ghost was: seq<nat>,
                     ghost n: nat)
      returns (next: nat, hash: uint32)
      requires Sent(coder, stream, src, at) && nRaw <= MAX_RAW && LZMIN <= matchLen <= MAX_MATCH && Hints(off, a)
      requires skip <= 1 && at + nRaw + skip + LZMATCH <= |src| && hash0 == HashAt(src, at + nRaw + skip)
      requires at + nRaw + 1 + skip <= n <= at + nRaw + matchLen && n + LZMATCH <= |src| + 1
      requires Left(was, table[..], src, off, 0, n, -1) && at + nRaw + matchLen <= |src|
      requires Cursor(stream, off, WINDOW + at + nRaw, a) && a <= WINDOW + at + nRaw + matchLen
      requires Source(stream, WINDOW + at + nRaw, matchLen, disp)
      modifies coder, stat, stat.stat, stat.symbolTable, window, window.buf, table
      ensures next == at + nRaw + matchLen && Sent(coder, stream, src, next) && Hints(off, WINDOW + next)
      ensures MatchLast(coder.toks, matchLen)
      ensures Cursor(stream, off, WINDOW + next, WINDOW + next)
      ensures Ready(was, src, off, next, hash)
    {
      hide Expand, Follows, Contents, Slot, Prints, Holds, Unpack, Last, ValidTokens, Hints, Source, Within, Left,
        LeftTo, HashAt;
      var tail := MatchTail(src, at + nRaw + 1 + skip, matchLen - 1 - skip);
      HintsOn(off, a, WINDOW + at + nRaw + matchLen);
      SlotCongruent(window.bufPos, off + WINDOW + at + nRaw, 1 + skip);
      ghost var mid := table[..];
      next := at + nRaw + matchLen;
      hash := UpdateTable(hash0, src, at + nRaw + skip, window.bufPos + 1 + skip, tail, off, WINDOW + next);
      LeftMatch(was, mid, table[..], src, off, n, at + nRaw + 1 + skip, tail, next);
      EmitMatch(coder, src, at, nRaw, matchLen, disp, stream, off, a);
    }

    /** Puts the match kept from one byte back, where the cursor returns to. */
    method TakeLazyMatch(coder: Encoder, src: seq<byte>, at: nat, nRaw: nat, matchLen: nat, hashPos: int,
                         bufPos: uint32,
                         hash0: uint32, ghost stream: seq<byte>, ghost off: int, ghost c: nat, ghost a: nat,
                         ghost was: seq<nat>)
      returns (next: nat, hash: uint32)
      requires Sent(coder, stream, src, at) && nRaw <= MAX_RAW && LZMIN <= matchLen && Hints(off, a)
      requires at + nRaw + LZMATCH < |src| && hash0 == HashAt(src, at + nRaw) && at + nRaw + matchLen <= |src|
      requires Left(was, table[..], src, off, 0, at + nRaw + 2, -1)
      requires Cursor(stream, off, c, a) && a == WINDOW + at + nRaw + 1
      requires LazyMatch(stream, off, a, matchLen, hashPos, bufPos)
      modifies coder, stat, stat.stat, stat.symbolTable, window, window.buf, table
      ensures next == at + nRaw + matchLen && Sent(coder, stream, src, next) && Hints(off, WINDOW + next)
      ensures MatchLast(coder.toks, matchLen)
      ensures Cursor(stream, off, WINDOW + next, WINDOW + next)
      ensures Ready(was, src, off, next, hash)
    {
      hide Expand, Follows, Contents, Slot, Prints, Holds, Unpack, Last, ValidTokens, Left, HashAt;
      window.bufPos := bufPos;
      assert Sent(coder, stream, src, at);
      hash := UpdateHashEx(hash0, src, at + nRaw);
      next, hash := TakeMatch(coder, src, at, nRaw, matchLen, Slot(window.bufPos - hashPos), 1, hash, stream, off, a,
                              was, at + nRaw + 2);
    }

    lemma Keep(stream: seq<byte>, off: int, c: nat, len: nat, hashPos: int)
      requires Cursor(stream, off, c, c) && len <= MAX_MATCH
      requires Source(stream, c, len, Slot(Slot(window.bufPos) - hashPos))
      ensures LazyMatch(stream, off, c + 1, len, hashPos, window.bufPos)
      ensures Source(stream, c, len, Slot(window.bufPos - hashPos))
    {
      hide Slot, Follows, Repeats;
      DistanceWrap(window.bufPos, hashPos);
    }

    /** Puts the longer of the match found and the one kept from one byte back, of equally long ones the
        one kept. */
    method TakeLonger(coder: Encoder, src: seq<byte>, at: nat, nRaw: nat, matchLen: nat, hashPos: int, hash0: uint32,
                      lazyMatchLen: nat, lazyMatchHashPos: int, lazyMatchNRaw: nat, lazyMatchBufPos: uint32,
                      lazyMatchHash: uint32, ghost stream: seq<byte>, ghost off: int, ghost was: seq<nat>)
      returns (next: nat, hash: uint32)
      requires Sent(coder, stream, src, at) && at + lazyMatchNRaw + 1 + LZMATCH <= |src| && lazyMatchNRaw < MAX_RAW
      requires Hints(off, WINDOW + at + lazyMatchNRaw + 1)
      requires Cursor(stream, off, WINDOW + at + nRaw, WINDOW + at + lazyMatchNRaw + 1)
      requires Left(was, table[..], src, off, 0, at + lazyMatchNRaw + 2, -1)
      requires matchLen <= MAX_MATCH && at + nRaw + matchLen <= |src| && hash0 == HashAt(src, at + nRaw)
      requires matchLen > 0 ==> Source(stream, WINDOW + at + nRaw, matchLen, Slot(Slot(window.bufPos) - hashPos))
      requires nRaw <= lazyMatchNRaw + 1 && (nRaw <= lazyMatchNRaw ==> lazyMatchNRaw + 1 - nRaw + LZMIN - 1 <= matchLen)
      requires LZMIN <= lazyMatchLen && at + lazyMatchNRaw + lazyMatchLen <= |src|
      requires lazyMatchHash == HashAt(src, at + lazyMatchNRaw)
      requires LazyMatch(stream, off, WINDOW + at + lazyMatchNRaw + 1, lazyMatchLen, lazyMatchHashPos, lazyMatchBufPos)
      modifies coder, stat, stat.stat, stat.symbolTable, window, window.buf, table
      ensures at < next && Sent(coder, stream, src, next) && Hints(off, WINDOW + next)
      ensures Cursor(stream, off, WINDOW + next, WINDOW + next) && Ready(was, src, off, next, hash)
      ensures MatchLast(coder.toks, matchLen) && MatchLast(coder.toks, lazyMatchLen)
      ensures next == if matchLen > lazyMatchLen then at + nRaw + matchLen else at + lazyMatchNRaw + lazyMatchLen
    {
      hide Expand, Follows, Contents, Slot, Prints, Holds, Unpack, Last, Repeats, ValidTokens, Hints, Source, Within,
        HashAt, Left, LeftTo;
      ghost var a := WINDOW + at + lazyMatchNRaw + 1;
      if matchLen > lazyMatchLen {
        var wrapBufPos := Slot(window.bufPos);
        next, hash := TakeMatch(coder, src, at, nRaw, matchLen, Slot(wrapBufPos - hashPos), 0, hash0,
                                stream, off, a, was, at + lazyMatchNRaw + 2);
      } else {
        next, hash := TakeLazyMatch(coder, src, at, lazyMatchNRaw, lazyMatchLen, lazyMatchHashPos, lazyMatchBufPos,
                                    lazyMatchHash, stream, off, WINDOW + at + nRaw, a, was);
      }
    }

    /** One turn of the outer loop: raw bytes up to the next match, and the match; or raw bytes only,
        when their number has reached its limit. */
    method EncodeRun(coder: Encoder, src: seq<byte>, at: nat, hash0: uint32, ghost stream: seq<byte>, ghost off: int,
                     ghost was: seq<nat>)
      returns (next: nat, hash: uint32)
      requires Sent(coder, stream, src, at) && at + LZMATCH <= |src| && Hints(off, WINDOW + at)
      requires Cursor(stream, off, WINDOW + at, WINDOW + at)
      requires |was| == LZTABLESIZE && Ready(was, src, off, at, hash0)
      modifies coder, stat, stat.stat, stat.symbolTable, window, window.buf, table
      ensures at < next && Sent(coder, stream, src, next) && Hints(off, WINDOW + next)
      ensures Cursor(stream, off, WINDOW + next, WINDOW + next) && Ready(was, src, off, next, hash)
      ensures old(Promising(stream, WINDOW + at, hash0)) ==> MatchLast(coder.toks, LZMIN)
    {
      hide Expand, Follows, Contents, Slot, Prints, Holds, Unpack, Last, Repeats, ValidTokens, Hints, Source, Within,
        Promising, HashIndex, HashAt, Longest, Left, LeftTo, Cursor, LazyMatch;
      var srcLeft := |src| - at;
      var nRaw := 0;
      var maxRaw := RawLimit(srcLeft);
      var lazyMatchLen, lazyMatchHashPos, lazyMatchNRaw: nat := 0, 0, 0;
      var lazyMatchBufPos: uint32, lazyMatchHash: uint32 := 0, 0;
      hash := hash0;
      ghost var promising := Promising(stream, WINDOW + at, hash);
      while true
        invariant nRaw <= maxRaw && Hints(off, WINDOW + at + nRaw) && Sent(coder, stream, src, at)
        invariant Cursor(stream, off, WINDOW + at + nRaw, WINDOW + at + nRaw)
        invariant Ready(was, src, off, at + nRaw, hash)
        invariant promising ==> if nRaw == 0 then Promising(stream, WINDOW + at, hash) else lazyMatchLen > 0
        invariant lazyMatchLen == 0 || (LZMIN <= lazyMatchLen && nRaw > 0 && lazyMatchNRaw == nRaw - 1
          && at + lazyMatchNRaw + lazyMatchLen <= |src| && lazyMatchHash == HashAt(src, at + lazyMatchNRaw))
        invariant lazyMatchLen == 0
          || LazyMatch(stream, off, WINDOW + at + nRaw, lazyMatchLen, lazyMatchHashPos, lazyMatchBufPos)
        decreases maxRaw - nRaw
      {
        ghost var n := at + nRaw + 1;
        var matchLen, hashPos, forced;
        matchLen, hashPos, nRaw, hash, forced := FindMatch(src, at, nRaw, hash, stream, off, was);
        assert Sent(coder, stream, src, at);
        var wrapBufPos: int := Slot(window.bufPos);
        if lazyMatchLen >= LZMIN {
          next, hash := TakeLonger(coder, src, at, nRaw, matchLen, hashPos, hash, lazyMatchLen, lazyMatchHashPos,
                                   lazyMatchNRaw, lazyMatchBufPos, lazyMatchHash, stream, off, was);
          return;
        }
        if matchLen >= LZMIN {
          if forced {
            next, hash := TakeMatch(coder, src, at, nRaw, matchLen, Slot(wrapBufPos - hashPos), 0, hash,
                                    stream, off, WINDOW + n - 1, was, n);
            return;
          }
          lazyMatchLen, lazyMatchHashPos, lazyMatchNRaw := matchLen, hashPos, nRaw;
          lazyMatchBufPos, lazyMatchHash := window.bufPos, hash;
          Keep(stream, off, WINDOW + at + nRaw, matchLen, hashPos);
        }
        assert !forced;
        if nRaw + 1 > maxRaw {
          next, hash := EndRun(coder, src, at, nRaw, lazyMatchLen, lazyMatchHashPos, hash, stream, off, was);
          return;
        }
        hash := Advance(src, at + nRaw, hash, stream, off, was);
        nRaw := nRaw + 1;
      }
    }

    /** The end of a turn whose number of raw bytes has reached its limit. */
    method EndRun(coder: Encoder, src: seq<byte>, at: nat, nRaw: nat, lazyMatchLen: nat, lazyMatchHashPos: int,
                  hash0: uint32, ghost stream: seq<byte>, ghost off: int, ghost was: seq<nat>)
      returns (next: nat, hash: uint32)
      requires Sent(coder, stream, src, at) && at + LZMATCH <= |src| && nRaw == RawLimit(|src| - at)
      requires hash0 == HashAt(src, at + nRaw) && Left(was, table[..], src, off, 0, at + nRaw + 1, -1)
      requires Hints(off, WINDOW + at + nRaw) && Cursor(stream, off, WINDOW + at + nRaw, WINDOW + at + nRaw)
      requires lazyMatchLen == 0 || (LZMIN <= lazyMatchLen <= MAX_MATCH && at + nRaw + lazyMatchLen <= |src|)
      requires lazyMatchLen > 0 ==>
        Source(stream, WINDOW + at + nRaw, lazyMatchLen, Slot(window.bufPos - lazyMatchHashPos))
      modifies coder, stat, stat.stat, stat.symbolTable, window, window.buf, table
      ensures at < next && Sent(coder, stream, src, next) && Hints(off, WINDOW + next)
      ensures Cursor(stream, off, WINDOW + next, WINDOW + next) && Ready(was, src, off, next, hash)
      ensures lazyMatchLen > 0 ==> MatchLast(coder.toks, lazyMatchLen)
    {
      hide Expand, Follows, Contents, Slot, Prints, Holds, Unpack, Last, Repeats, ValidTokens, Hints, Source, Within,
        Left, HashAt;
      hash := hash0;
      ghost var a := WINDOW + at + nRaw;
      if lazyMatchLen >= LZMIN {
        var disp := Slot(window.bufPos - lazyMatchHashPos);
        next, hash := TakeMatch(coder, src, at, nRaw, lazyMatchLen, disp, 0, hash, stream, off, a,
                                was, at + nRaw + 1);
      } else {
        next := EmitRaw(coder, src, at, nRaw, stream, off);
        HintsOn(off, a, WINDOW + next);
        LeftRaw(was, table[..], src, off, at + nRaw, next);
      }
    }

    /** maxRaw of a turn */
    static function RawLimit(srcLeft: nat): nat
      requires LZMATCH <= srcLeft
    {
      if srcLeft - LZMATCH < MAX_RAW then srcLeft - LZMATCH else MAX_RAW
    }

    /** The number of hints a match may leave: none that would read past the block. */
    static function MatchTail(src: seq<byte>, p: nat, len: int): (n: int)
      ensures 0 < n ==> p + n + LZMATCH <= |src|
    {
      if |src| - p - LZMATCH < len then |src| - p - LZMATCH else len
    }

    /** Puts raw bytes that are already in the ring, and with them a short rest of the block. */
    method EmitRaw(coder: Encoder, src: seq<byte>, at: nat, nRaw0: nat, ghost stream: seq<byte>, ghost off: int)
      returns (next: nat)
      requires Sent(coder, stream, src, at) && at + LZMATCH <= |src| && nRaw0 == RawLimit(|src| - at)
      requires Cursor(stream, off, WINDOW + at + nRaw0, WINDOW + at + nRaw0)
      modifies coder, stat, stat.stat, stat.symbolTable, window, window.buf
      ensures next == at + nRaw0 || (next == |src| && at + nRaw0 + LZMATCH == |src|)
      ensures at < next && Sent(coder, stream, src, next)
      ensures Cursor(stream, off, WINDOW + next, WINDOW + next)
    {
      hide Expand, Follows, Contents, Slot, Prints, Holds, Unpack, Last, ValidTokens;
      var nRaw := nRaw0;
      var srcLeft := |src| - at;
      if nRaw + LZMATCH >= srcLeft && srcLeft <= MAX_RAW {
        Store(src, at + nRaw, srcLeft - nRaw, stream, off);
        nRaw := srcLeft;
        assert Sent(coder, stream, src, at);
      }
      Put(coder, src, at, nRaw, stream);
      next := at + nRaw;
    }

    /** Takes n bytes at the cursor into the ring. */
    method Store(src: seq<byte>, p: nat, n: nat, ghost stream: seq<byte>, ghost off: int)
      requires p + n <= |src| && n < WINDOW && |stream| == WINDOW + |src| && stream[WINDOW..] == src
      requires Cursor(stream, off, WINDOW + p, WINDOW + p)
      modifies window, window.buf
      ensures Cursor(stream, off, WINDOW + p + n, WINDOW + p + n)
    {
      hide Follows, Contents, Slot, Last;
      ghost var before, pos: int, c := window.buf[..], window.bufPos, WINDOW + p;
      window.ToBuf(src[p..p + n]);
      BlockSlice(stream, src, p, n);
      StoreFollows(before, window.buf[..], stream, off, c, c, pos, n);
      SlotWrap(pos + n);
      SlotCongruent(pos, off + c, n);
    }

    method Put(coder: Encoder, src: seq<byte>, at: nat, n: nat, ghost stream: seq<byte>)
      requires Sent(coder, stream, src, at) && at + n <= |src|
      modifies coder, stat, stat.stat, stat.symbolTable
      ensures Sent(coder, stream, src, at + n)
    {
      hide Expand, Prints, Holds, Unpack, Within;
      ExpandLiterals(stream[..WINDOW], coder.toks, src[at..at + n]);
      WithinLiterals(stream[..WINDOW], coder.toks, src[at..at + n], First() - MAX_RAW);
      assert stream[..WINDOW + at] + src[at..at + n] == stream[..WINDOW + at + n];
      coder.PutRaw(src[at..at + n]);
    }

    /** Puts a whole block. */
    method EncodeBlock(coder: Encoder, src: seq<byte>, ghost stream: seq<byte>, ghost off: int)
      requires Sent(coder, stream, src, 0) && Hints(off, WINDOW) && Cursor(stream, off, WINDOW, WINDOW)
      modifies coder, stat, stat.stat, stat.symbolTable, window, window.buf, table
      ensures Sent(coder, stream, src, |src|) && Hints(off, |stream|) && Cursor(stream, off, |stream|, |stream|)
      ensures LeftBehind(old(table[..]), table[..], src, off)
    {
      hide Expand, Follows, Contents, Slot, Prints, Holds, Unpack, Last, ValidTokens, Left, HashAt;
      ghost var was := table[..];
      var at: nat, hash: uint32 := 0, 0;
      if |src| >= LZMATCH {
        hash := CalcHash(src, 0);
        LeftNothing(was, src, off, 0);
      }
      while |src| - at >= LZMATCH
        invariant if LZMATCH <= |src| then Ready(was, src, off, at, hash) else table[..] == was
        invariant Sent(coder, stream, src, at) && Hints(off, WINDOW + at)
          && Cursor(stream, off, WINDOW + at, WINDOW + at)
      {
        at, hash := EncodeRun(coder, src, at, hash, stream, off, was);
      }
      if |src| - at > 0 {
        Store(src, at, |src| - at, stream, off);
        assert Sent(coder, stream, src, at);
        HintsOn(off, WINDOW + at, |stream|);
        Put(coder, src, at, |src| - at, stream);
      }
    }

    /** Compresses a block. Whatever the table of hints holds, the tokens put mean exactly the block,
        and afterwards the ring holds the last bytes of the stream. No match copies from more than
        MAX_RAW places before the first byte that was ever sent. */
    method Compress(src: seq<byte>) returns (dst: seq<byte>, ghost toks: seq<Token>)
      requires Valid()
      modifies stat, stat.stat, stat.symbolTable, window, window.buf, table, `base
      ensures Valid() && ValidTokens(toks) && base == old(base) + |src|
      ensures Expand(old(window.Window()), toks) == old(window.Window()) + src
      ensures Within(old(window.Window()), toks, WINDOW - old(base) - MAX_RAW)
      ensures window.Window() == Last(old(window.Window()) + src)
      ensures Stat() == BlockState(old(Stat()), toks)
      ensures Padded(dst, BlockBits(old(Stat()), toks))
      ensures LeftBehind(old(table[..]), table[..], src, old(window.bufPos) - WINDOW)
    {
      hide Follows, Contents, Slot, Holds, Unpack, Last, TokensState, TokensBits, Bounded, FitTable, Expand, Prints,
        Padded,
        BlockBits, BlockState, Within, Behind, LeftBehind;
      ghost var win, e := window.Window(), Stat();
      ghost var stream, off := win + src, window.bufPos - WINDOW;
      var coder := new Encoder(stat);
      assert coder.start == e;
      Unstarted(stream, win);
      FollowsStart(window.buf[..], window.bufPos, src);
      EncodeBlock(coder, src, stream, off);
      FollowsEnd(window.buf[..], stream, off, window.bufPos);
      assert stream[..|stream|] == stream;
      toks := coder.toks;
      var size := coder.Flush();
      dst := coder.dst;
      HintsNext(off, |stream|, window.bufPos);
      base := base + |src|;
    }
  }

  /** A part of the block as a part of the stream. */
  lemma BlockSlice(stream: seq<byte>, src: seq<byte>, p: nat, n: nat)
    requires |stream| == WINDOW + |src| && stream[WINDOW..] == src && p + n <= |src|
    ensures src[p..p + n] == stream[WINDOW + p..WINDOW + p + n]
  {
    var a, b := src[p..p + n], stream[WINDOW + p..WINDOW + p + n];
    forall i | 0 <= i < n ensures a[i] == b[i] {
      assert stream[WINDOW..][p + i] == stream[WINDOW + p + i];
    }
  }

  /** The last token is a match of at least len bytes. */
  ghost predicate MatchLast(toks: seq<Token>, len: nat) {
    toks != [] && toks[|toks| - 1].Match? && len <= toks[|toks| - 1].len
  }

  lemma HintBack(bufPos: int, c: int, d: nat)
    requires Slot(bufPos) == Slot(c) && 0 < d < WINDOW
    ensures Slot(c - d) != NO_HINT && Slot(c - d) != Slot(bufPos) && Slot(bufPos - Slot(c - d)) == d
  {
  }

  lemma LongestBack(stream: seq<byte>, c: nat, len: nat, disp: nat, n: nat)
    requires Longest(stream, c, len, disp) && n <= c
    ensures Longest(stream, c - n, len + n, disp)
  {
  }

  /** The longest repeat is no shorter than any. */
  lemma PromiseKept(stream: seq<byte>, c: nat, len: nat, disp: nat)
    requires Longest(stream, c, len, disp) && RepeatsEnough(stream, c, disp)
    ensures LZMIN <= len
  {
  }

  lemma Unstarted(stream: seq<byte>, win: seq<byte>)
    requires |win| == WINDOW && win <= stream
    ensures stream[..WINDOW] == win && stream[WINDOW..] == stream[|win|..]
    ensures ValidTokens([]) && Expand(win, []) == win && forall low :: Within(win, [], low)
  {
  }

  lemma DistanceWrap(bufPos: int, hashPos: int)
    ensures Slot(Slot(bufPos) - hashPos) == Slot(bufPos - hashPos)
  {
    SlotShift(Slot(bufPos) - hashPos, bufPos / WINDOW);
    assert Slot(bufPos) - hashPos + WINDOW * (bufPos / WINDOW) == bufPos - hashPos;
  }

  /** Moving cursor and match back together keeps their distance. */
  lemma MoveBack(bufPos: int, hashPos: int, pos: int, n: int)
    requires Slot(bufPos) == Slot(pos)
    ensures Slot((bufPos - n) % WORD) == Slot(pos - n)
    ensures Slot(Slot((bufPos - n) % WORD) - (hashPos - n) % WORD) == Slot(bufPos - hashPos)
  {
    hide Slot;
    SlotWrap(bufPos - n);
    SlotCongruent(bufPos, pos, -n);
    DistanceWrap((bufPos - n) % WORD, (hashPos - n) % WORD);
    var a, b := (bufPos - n) / WORD, (hashPos - n) / WORD;
    SlotShift((bufPos - n) % WORD - (hashPos - n) % WORD, 0x4_0000 * (a - b));
    assert (bufPos - n) % WORD - (hashPos - n) % WORD + WINDOW * (0x4_0000 * (a - b)) == bufPos - hashPos;
  }

  /** The ring byte before the match is the stream byte before the repeat. */
  lemma RingBefore(ring: seq<byte>, stream: seq<byte>, off: int, c: nat, bufPos: int, hashPos: int, n: int)
    requires Follows(ring, stream, off, c) && Slot(bufPos) == Slot(off + c)
    requires 0 <= n && 1 <= Slot(bufPos - hashPos) && n + Slot(bufPos - hashPos) < WINDOW
    ensures ring[Slot((hashPos - n - 1) % WORD)] == stream[c - n - 1 - Slot(bufPos - hashPos)]
  {
    hide Slot;
    var d := Slot(bufPos - hashPos);
    SlotWrap(hashPos - n - 1);
    BackFrom(bufPos, hashPos, off + c);
    SlotCongruent(hashPos, off + c - d, -n - 1);
    assert ByteAt(ring, off + (c - n - 1 - d)) == stream[c - n - 1 - d];
  }

  lemma BackFrom(bufPos: int, hashPos: int, pos: int)
    requires Slot(bufPos) == Slot(pos)
    ensures Slot(hashPos) == Slot(pos - Slot(bufPos - hashPos))
  {
    var d: int, q := Slot(bufPos - hashPos), (bufPos - hashPos) / WINDOW;
    assert bufPos - d == hashPos + WINDOW * q;
    hide Slot;
    SlotCongruent(bufPos, pos, -d);
    SlotShift(hashPos, q);
  }

  /** The displacement of a hint is between 1 and the size of the ring. */
  lemma HintDisp(bufPos: int, hashPos: nat, pos: int)
    requires hashPos < WINDOW && hashPos != Slot(bufPos) && Slot(bufPos) == Slot(pos)
    ensures 1 <= Slot(Slot(bufPos) - hashPos) < WINDOW
    ensures Slot(hashPos) == Slot(pos - Slot(Slot(bufPos) - hashPos))
  {
  }

  lemma CaughtUp(bufPos: int, hashPos: nat, len: nat)
    requires hashPos < WINDOW && hashPos != Slot(bufPos) && len <= Slot(Slot(bufPos) - hashPos)
    ensures Slot(hashPos + len) == Slot(bufPos) <==> len == Slot(Slot(bufPos) - hashPos)
  {
  }

  /** The ring byte that a stream byte is compared with. */
  lemma RingByte(ring: seq<byte>, stream: seq<byte>, off: int, c: nat, hashPos: nat, disp: nat, n: nat)
    requires Follows(ring, stream, off, c) && 1 <= disp < WINDOW && n < disp
    requires Slot(hashPos) == Slot(off + c - disp)
    ensures ByteAt(ring, hashPos + n) == stream[c + n - disp]
  {
    hide Slot;
    SlotCongruent(hashPos, off + c - disp, n);
    assert ByteAt(ring, off + (c + n - disp)) == stream[c + n - disp];
  }

  /** What the ring matches, the stream repeats. */
  lemma RingRepeats(ring: seq<byte>, stream: seq<byte>, off: int, c: nat, hashPos: nat, disp: nat, len: nat,
                    rest: seq<byte>)
    requires Follows(ring, stream, off, c) && 1 <= disp < WINDOW && len <= disp && len <= |rest|
    requires rest == stream[c..] && Slot(hashPos) == Slot(off + c - disp)
    requires forall i :: 0 <= i < len ==> rest[i] == ByteAt(ring, hashPos + i)
    ensures Repeats(stream, c, len, disp)
  {
    hide Slot;
    forall i | c <= i < c + len ensures stream[i] == stream[i - disp] {
      SlotCongruent(hashPos, off + c - disp, i - c);
      assert rest[i - c] == ByteAt(ring, hashPos + (i - c));
      assert ByteAt(ring, off + (i - disp)) == stream[i - disp];
    }
  }
}
