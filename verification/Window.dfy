/** The ring buffer that both ends keep of the last 16384 bytes. */
module Windows {
  import opened Bits
  import opened Decoding

  /** `x & LZBUFMASK`: _wrap and _distance */
  function Slot(x: int): (s: nat)
    ensures s < WINDOW
  {
    x % WINDOW
  }

  /** The byte at position x of a ring. */
  function ByteAt(ring: seq<byte>, x: int): byte
    requires |ring| == WINDOW
  {
    ring[Slot(x)]
  }

  lemma SlotShift(x: int, m: int)
    ensures Slot(x + WINDOW * m) == Slot(x)
  {
  }

  /** Positions wrap around in a 32-bit word without harm. */
  lemma SlotWrap(x: int)
    ensures Slot(x % WORD) == Slot(x)
  {
    SlotShift(x % WORD, 0x4_0000 * (x / WORD));
  }

  /** Within a run that does not pass the end of the ring, slots are consecutive. */
  lemma SlotRun(x: int, i: nat)
    ensures Slot(x) + i < WINDOW ==> Slot(x + i) == Slot(x) + i
    ensures WINDOW <= Slot(x) + i < 2 * WINDOW ==> Slot(x + i) == Slot(x) + i - WINDOW
  {
  }

  /** The bytes of the ring, oldest first, when the next one goes to position pos. */
  function Contents(ring: seq<byte>, pos: int): (w: seq<byte>)
    requires |ring| == WINDOW
    ensures |w| == WINDOW
  {
    seq<byte>(WINDOW, k requires 0 <= k < WINDOW => ByteAt(ring, pos + k))
  }

  /** src has been written over the n oldest bytes of the ring. */
  ghost predicate Stored(before: seq<byte>, after: seq<byte>, pos: int, src: seq<byte>) {
    && |before| == |after| == WINDOW && |src| <= WINDOW
    && (forall x :: pos <= x < pos + |src| ==> ByteAt(after, x) == src[x - pos])
    && (forall x :: pos + |src| - WINDOW <= x < pos ==> ByteAt(after, x) == ByteAt(before, x))
  }

  lemma StoredFrom(before: seq<byte>, after: seq<byte>, pos: int, src: seq<byte>)
    requires |before| == |after| == WINDOW && |src| <= WINDOW
    requires forall i :: 0 <= i < |src| && Slot(pos) + i < WINDOW ==> after[Slot(pos) + i] == src[i]
    requires forall i :: 0 <= i < |src| && WINDOW <= Slot(pos) + i ==> after[Slot(pos) + i - WINDOW] == src[i]
    requires forall s :: 0 <= s < WINDOW && !(Slot(pos) <= s < Slot(pos) + |src|) && s >= Slot(pos) + |src| - WINDOW ==>
      after[s] == before[s]
    ensures Stored(before, after, pos, src)
  {
    hide Slot;
    forall x | pos <= x < pos + |src| ensures ByteAt(after, x) == src[x - pos] {
      SlotRun(pos, x - pos);
    }
    forall x | pos + |src| - WINDOW <= x < pos ensures ByteAt(after, x) == ByteAt(before, x) {
      SlotRun(pos, x + WINDOW - pos);
      SlotShift(x, 1);
    }
  }

  /** Storing bytes slides the contents. */
  lemma StoredContents(before: seq<byte>, after: seq<byte>, pos: int, src: seq<byte>)
    requires Stored(before, after, pos, src)
    ensures Contents(after, pos + |src|) == Last(Contents(before, pos) + src)
  {
    hide Slot;
    var c, d := Contents(after, pos + |src|), Last(Contents(before, pos) + src);
    forall k | 0 <= k < WINDOW ensures c[k] == d[k] {
      var x := pos + |src| + k;
      SlotShift(x - WINDOW, 1);
      assert ByteAt(after, x) == ByteAt(after, x - WINDOW);
      if k + |src| < WINDOW {
        assert ByteAt(before, x - WINDOW) == ByteAt(before, x);
      }
    }
  }

  lemma ContentsWrap(ring: seq<byte>, pos: int)
    requires |ring| == WINDOW
    ensures Contents(ring, pos % WORD) == Contents(ring, pos)
  {
    hide Slot;
    var c, d := Contents(ring, pos % WORD), Contents(ring, pos);
    forall k | 0 <= k < WINDOW ensures c[k] == d[k] {
      var r, m := pos % WORD + k, 0x4_0000 * (pos / WORD);
      SlotShift(r, m);
      assert r + WINDOW * m == pos + k;
      assert c[k] == ByteAt(ring, r) && d[k] == ByteAt(ring, pos + k);
    }
  }

  class LZBuffer {
    const buf: array<byte>
    var bufPos: uint32

    ghost predicate Valid()
      reads this
    {
      buf.Length == WINDOW
    }

    /** The bytes in the ring, oldest first. */
    ghost function Window(): (w: seq<byte>)
      requires Valid()
      reads this, buf
      ensures |w| == WINDOW
    {
      Contents(buf[..], bufPos)
    }

    /** The contents of a new buffer are whatever the memory held. */
    constructor (memory: seq<byte>)
      requires |memory| == WINDOW
      ensures Valid() && fresh(buf) && bufPos == 0 && buf[..] == memory
    {
      buf := new byte[WINDOW](i requires 0 <= i < WINDOW => memory[i]);
      bufPos := 0;
    }

    method ToBufByte(c: byte)
      requires Valid()
      modifies this, buf
      ensures Valid() && bufPos == (old(bufPos) + 1) % WORD
      ensures Stored(old(buf[..]), buf[..], old(bufPos), [c])
      ensures Window() == Last(old(Window()) + [c])
    {
      buf[Slot(bufPos)] := c;
      StoredFrom(old(buf[..]), buf[..], bufPos, [c]);
      StoredContents(old(buf[..]), buf[..], bufPos, [c]);
      ContentsWrap(buf[..], bufPos + 1);
      bufPos := (bufPos + 1) % WORD;
    }

    method ToBuf(src: seq<byte>)
      requires Valid() && |src| < WINDOW
      modifies this, buf
      ensures Valid() && bufPos == (old(bufPos) + |src|) % WORD
      ensures Stored(old(buf[..]), buf[..], old(bufPos), src)
      ensures Window() == Last(old(Window()) + src)
    {
      hide Slot, Contents, ByteAt, Stored;
      var begin := Slot(bufPos);
      var end := begin + |src|;
      if end > WINDOW {
        var left := WINDOW - begin;
        forall i | begin <= i < WINDOW { buf[i] := src[i - begin]; }
        forall i | 0 <= i < |src| - left { buf[i] := src[left + i]; }
      } else {
        forall i | begin <= i < end { buf[i] := src[i - begin]; }
      }
      StoredFrom(old(buf[..]), buf[..], bufPos, src);
      StoredContents(old(buf[..]), buf[..], bufPos, src);
      ContentsWrap(buf[..], bufPos + |src|);
      bufPos := (bufPos + |src|) % WORD;
    }

    /** Copies sz bytes from ring position pos into dst. */
    method BufCpy(dst: array<byte>, at: nat, pos: int, sz: nat)
      requires Valid() && dst != buf && sz < WINDOW && at + sz <= dst.Length
      modifies dst
      ensures forall i :: at <= i < at + sz ==> dst[i] == ByteAt(buf[..], pos + (i - at))
      ensures dst[..at] == old(dst[..at]) && dst[at + sz..] == old(dst[at + sz..])
    {
      hide Slot;
      var begin := Slot(pos);
      var end := begin + sz;
      if end > WINDOW {
        var left := WINDOW - begin;
        forall i | at <= i < at + left { dst[i] := buf[begin + (i - at)]; }
        forall i | at + left <= i < at + sz { dst[i] := buf[i - at - left]; }
      } else {
        forall i | at <= i < at + sz { dst[i] := buf[begin + (i - at)]; }
      }
      forall i | at <= i < at + sz ensures dst[i] == ByteAt(buf[..], pos + (i - at)) { SlotRun(pos, i - at); }
    }

    /** How many bytes of p, up to nLimit, the ring holds from pos on. */
    method NMatch(pos: nat, p: seq<byte>, nLimit: nat) returns (n: nat)
      requires Valid() && pos < WINDOW && nLimit < WINDOW && nLimit <= |p|
      ensures n <= nLimit
      ensures forall i :: 0 <= i < n ==> p[i] == ByteAt(buf[..], pos + i)
      ensures n < nLimit ==> p[n] != ByteAt(buf[..], pos + n)
    {
      hide Slot;
      assert Slot(pos) == pos by { SlotIdentity(pos); }
      n := 0;
      if WINDOW - pos >= nLimit {
        while n < nLimit
          invariant n <= nLimit && forall i :: 0 <= i < n ==> p[i] == ByteAt(buf[..], pos + i)
        {
          SlotRun(pos, n);
          if buf[pos + n] != p[n] { return; }
          n := n + 1;
        }
      } else {
        var shift := WINDOW - pos;
        while n < shift
          invariant n <= shift && forall i :: 0 <= i < n ==> p[i] == ByteAt(buf[..], pos + i)
        {
          SlotRun(pos, n);
          if buf[pos + n] != p[n] { return; }
          n := n + 1;
        }
        while n < nLimit
          invariant shift <= n <= nLimit && forall i :: 0 <= i < n ==> p[i] == ByteAt(buf[..], pos + i)
        {
          SlotRun(pos, n);
          if buf[n - shift] != p[n] { return; }
          n := n + 1;
        }
      }
    }
  }

  lemma SlotIdentity(x: nat)
    requires x < WINDOW
    ensures Slot(x) == x
  {
  }
}
