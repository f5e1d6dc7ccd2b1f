/** The bit buffer of the Canon decoder: bytes with the filler after each 0xff dropped, read as bits. */
module CanonStream {
  import opened Bits

  // ----- the file as a stream of bits

  /** What reading one byte gives: past the end of the file, the end marker cast to a byte. */
  function ByteRead(data: seq<Byte>, pos: nat): Byte {
    if pos < |data| then data[pos] else 0xff
  }

  function Advance(data: seq<Byte>, pos: nat): nat {
    if pos < |data| then pos + 1 else pos
  }

  /** The position after one byte and, when that byte is 0xff, the filler behind it. */
  function SkipByte(data: seq<Byte>, pos: nat): nat {
    var next := Advance(data, pos);
    if ByteRead(data, pos) == 0xff then Advance(data, next) else next
  }

  function PosAfter(data: seq<Byte>, start: nat, j: nat): nat {
    if j == 0 then start else SkipByte(data, PosAfter(data, start, j - 1))
  }

  /** Byte `j` of the destuffed file. */
  function DestuffedByte(data: seq<Byte>, start: nat, j: nat): Byte {
    ByteRead(data, PosAfter(data, start, j))
  }

  /** The destuffed file as bits, counted from `start`. */
  function DestuffedBits(data: seq<Byte>, start: nat): Stream {
    (k: nat) => ToBits(DestuffedByte(data, start, k / 8), 8)[k % 8]
  }

  /** The writer's side: a zero filler after every 0xff. */
  function Stuff(bytes: seq<Byte>): seq<Byte> {
    if bytes == [] then []
    else (if bytes[0] == 0xff then [0xff, 0x00] else [bytes[0]]) + Stuff(bytes[1..])
  }

  function BytesToBits(bytes: seq<Byte>): (bits: seq<bool>)
    ensures |bits| == 8 * |bytes|
  {
    if bytes == [] then [] else ToBits(bytes[0], 8) + BytesToBits(bytes[1..])
  }

  /** The bytes handed out, one after the other: behind each 0xff one byte of the file is dropped, and past the end of
      the file there are only 0xff. */
  lemma DestuffedInOrder(data: seq<Byte>, start: nat, j: nat)
    ensures PosAfter(data, start, 0) == start
    ensures var p := PosAfter(data, start, j);
            && (p < |data| && data[p] != 0xff ==>
                  DestuffedByte(data, start, j) == data[p] && PosAfter(data, start, j + 1) == p + 1)
            && (p + 1 < |data| && data[p] == 0xff ==>
                  DestuffedByte(data, start, j) == 0xff && PosAfter(data, start, j + 1) == p + 2)
            && (p >= |data| ==> DestuffedByte(data, start, j) == 0xff && PosAfter(data, start, j + 1) == p)
  {
  }

  /** Stuffing puts a zero byte behind each 0xff and changes nothing else. */
  lemma StuffedInOrder(b: Byte, rest: seq<Byte>)
    ensures Stuff([b] + rest) == (if b == 0xff then [0xff, 0x00] else [b]) + Stuff(rest)
    ensures Stuff([]) == []
  {
    assert ([b] + rest)[1..] == rest;
  }

  // ----- destuffing undoes stuffing

  lemma {:induction false} PosAfterShift(data: seq<Byte>, start: nat, j: nat)
    ensures PosAfter(data, start, j + 1) == PosAfter(data, SkipByte(data, start), j)
  {
    if j > 0 {
      PosAfterShift(data, start, j - 1);
    }
  }

  lemma {:induction false} DestuffedOfStuffed(prefix: seq<Byte>, bytes: seq<Byte>, suffix: seq<Byte>, j: nat)
    requires j < |bytes|
    decreases j
    ensures DestuffedByte(prefix + Stuff(bytes) + suffix, |prefix|, j) == bytes[j]
  {
    var data := prefix + Stuff(bytes) + suffix;
    if j > 0 {
      var head := if bytes[0] == 0xff then [0xff, 0x00] else [bytes[0]];
      assert data == (prefix + head) + Stuff(bytes[1..]) + suffix;
      DestuffedOfStuffed(prefix + head, bytes[1..], suffix, j - 1);
      assert SkipByte(data, |prefix|) == |prefix + head|;
      PosAfterShift(data, |prefix|, j - 1);
    }
  }

  lemma {:induction false} BytesToBitsAt(bytes: seq<Byte>, j: nat, i: nat)
    requires j < |bytes| && i < 8
    ensures BytesToBits(bytes)[8 * j + i] == ToBits(bytes[j], 8)[i]
  {
    if j > 0 {
      BytesToBitsAt(bytes[1..], j - 1, i);
    }
  }

  /** Whatever surrounds them in the file, stuffed bytes are read back as the bits of those bytes. */
  lemma StuffedFileCarriesBits(prefix: seq<Byte>, bytes: seq<Byte>, suffix: seq<Byte>)
    ensures Carries(DestuffedBits(prefix + Stuff(bytes) + suffix, |prefix|), 0, BytesToBits(bytes))
  {
    var s := DestuffedBits(prefix + Stuff(bytes) + suffix, |prefix|);
    forall k | 0 <= k < 8 * |bytes|
      ensures s(0 + k) == BytesToBits(bytes)[k]
    {
      BytesToBitsAt(bytes, k / 8, k % 8);
      DestuffedOfStuffed(prefix, bytes, suffix, k / 8);
    }
  }

  lemma WindowOfByte(data: seq<Byte>, start: nat, j: nat)
    ensures Window(DestuffedBits(data, start), 8 * j, 8) == ToBits(DestuffedByte(data, start, j), 8)
  {
    var s, b := DestuffedBits(data, start), ToBits(DestuffedByte(data, start, j), 8);
    forall i | 0 <= i < 8
      ensures s(8 * j + i) == b[i]
    {
      assert (8 * j + i) / 8 == j && (8 * j + i) % 8 == i;
    }
  }

  /** Eight more bits of a window append the value of one byte. */
  lemma WindowExtendsByByte(data: seq<Byte>, start: nat, off: nat, n: nat, j: nat)
    requires off + n == 8 * j
    ensures var s := DestuffedBits(data, start);
            Value(Window(s, off, n + 8)) == Value(Window(s, off, n)) * 256 + DestuffedByte(data, start, j)
  {
    var s, c := DestuffedBits(data, start), DestuffedByte(data, start, j);
    Pow2Values();
    hide ToBits, Value, Window, DestuffedBits, DestuffedByte, Pow2;
    WindowSplit(s, off, n, 8);
    WindowOfByte(data, start, j);
    ValueConcat(Window(s, off, n), ToBits(c, 8));
    ValueOfToBits(c, 8);
  }

  // ----- 32-bit shifts

  function Shl(x: nat, n: nat): nat { Mod(x * Pow2(n), WORD) }

  function Shr(x: nat, n: nat): nat { Div(x, Pow2(n)) }

  lemma WordSplit(m: nat)
    requires m <= 32
    ensures Pow2(m) * Pow2(32 - m) == WORD
  {
    hide Pow2;
    Pow2Values();
    Pow2Add(m, 32 - m);
  }

  lemma Distribute(q: nat, p: nat, r: nat, a: nat)
    ensures (q * p + r) * a == q * (p * a) + r * a
  {
    assert (q * p) * a == q * (p * a);
  }

  /** Modulo a multiple of `b` first, then modulo `b`. */
  lemma RemainderOfRemainder(x: nat, a: nat, b: nat)
    requires a > 0 && b > 0
    ensures b * a > 0
    ensures Mod(Mod(x, b * a), b) == Mod(x, b)
  {
    hide Mod, Div;
    assert b * a > 0;
    var k, y := Div(x, b * a), Mod(x, b * a);
    Euclid(x, b * a);
    Euclid(y, b);
    var q, r := Div(y, b), Mod(y, b);
    assert x == (k * a + q) * b + r by {
      assert k * (b * a) == (k * a) * b;
      assert (k * a + q) * b == (k * a) * b + q * b;
    }
    DivModUnique(k * a + q, b, r);
  }

  lemma ScaledRemainder(x: nat, p: nat, a: nat)
    requires p > 0 && a > 0
    ensures p * a > 0
    ensures Mod(x * a, p * a) == Mod(x, p) * a
  {
    hide Mod, Div;
    Euclid(x, p);
    var q, r := Div(x, p), Mod(x, p);
    Distribute(q, p, r, a);
    assert (p - r) * a > 0;
    DivModUnique(q, p * a, r * a);
  }

  lemma ScaledQuotient(r: nat, a: nat, c: nat)
    requires a > 0 && c > 0
    ensures a * c > 0
    ensures Div(r * a, a * c) == Div(r, c)
  {
    hide Mod, Div;
    Euclid(r, c);
    var q, t := Div(r, c), Mod(r, c);
    Distribute(q, c, t, a);
    assert (c - t) * a > 0;
    DivModUnique(q, a * c, t * a);
  }

  /** Shifting left by 32 - v and right by 32 - n selects the top n of the low v bits. */
  lemma ShiftsSelect(x: nat, v: nat, n: nat)
    requires n <= v <= 32
    ensures Shr(Shl(x, 32 - v), 32 - n) == Div(Mod(x, Pow2(v)), Pow2(v - n))
  {
    hide Mod, Div, Pow2;
    WordSplit(v);
    Pow2Add(32 - v, v - n);
    ScaledRemainder(x, Pow2(v), Pow2(32 - v));
    ScaledQuotient(Mod(x, Pow2(v)), Pow2(32 - v), Pow2(v - n));
  }

  /** Appending a byte to the buffer appends its eight bits to the low `v`. */
  lemma AppendByte(x: nat, v: nat, c: Byte)
    requires v <= 24
    ensures Shl(x, 8) + c < WORD
    ensures Mod(Shl(x, 8) + c, Pow2(v + 8)) == Mod(x, Pow2(v)) * 256 + c
  {
    Pow2Values();
    hide Pow2, Mod, Div;
    var p, a := Pow2(v), Pow2(24 - v);
    Pow2Add(v, 8);
    WordSplit(v + 8);
    AppendByteModulo(x, p, a, c);
  }

  lemma AppendByteModulo(x: nat, p: nat, a: nat, c: Byte)
    requires p > 0 && a > 0 && p * 256 * a == WORD
    ensures Mod(x * 256, WORD) + c < WORD
    ensures Mod(Mod(x * 256, WORD) + c, p * 256) == Mod(x, p) * 256 + c
  {
    hide Mod, Div;
    assert p * a > 0 && p * a * 256 == WORD;
    var r := Mod(x, p * a);
    ScaledRemainder(x, p * a, 256);
    assert Mod(x * 256, WORD) == r * 256;
    RemainderOfRemainder(x, a, p);
    Euclid(r, p);
    var q', r' := Div(r, p), Mod(r, p);
    Distribute(q', p, r', 256);
    DivModUnique(q', p * 256, r' * 256 + c);
  }

  /** Handing out the top `n` of `v` buffered bits. */
  lemma TakeBits(s: Stream, off: nat, buf: nat, v: nat, n: nat)
    requires n <= v <= 32
    requires Mod(buf, Pow2(v)) == Value(Window(s, off, v))
    ensures Shr(Shl(buf, 32 - v), 32 - n) == Value(Window(s, off, n))
    ensures Mod(buf, Pow2(v - n)) == Value(Window(s, off + n, v - n))
  {
    hide Mod, Div, Pow2, Shl, Shr, Value;
    ShiftsSelect(buf, v, n);
    WindowSplit(s, off, n, v - n);
    ValueSplit(Window(s, off, n), Window(s, off + n, v - n));
    Pow2Add(v - n, n);
    RemainderOfRemainder(buf, Pow2(n), Pow2(v - n));
  }

  /** The bit buffer: `bitbuf` holds bits not yet handed out in its low `vbits` positions. */
  class BitBuffer {
    const data: seq<Byte>
    var pos: nat
    var bitbuf: nat
    var vbits: int
    ghost var start: nat
    ghost var fetched: nat

    constructor (data: seq<Byte>, pos: nat)
      ensures this.data == data && this.pos == pos
    {
      this.data := data;
      this.pos := pos;
      bitbuf, vbits := 0, 0;
      start, fetched := pos, 0;
    }

    /** The bits the buffer was primed on. */
    ghost function Source(): Stream
      reads this
    {
      DestuffedBits(data, start)
    }

    /** How many of them have been handed out. */
    ghost function Consumed(): int
      reads this
    {
      8 * fetched - vbits
    }

    ghost predicate Holds()
      reads this
    {
      && 0 <= vbits <= 32
      && bitbuf < WORD
      && 0 <= Consumed()
      && pos == PosAfter(data, start, fetched)
      && Mod(bitbuf, Pow2(vbits)) == Value(Window(Source(), Consumed(), vbits))
    }

    ghost predicate Valid()
      reads this
    {
      Holds() && 25 <= vbits
    }

    /** Reads the next byte of the file, as `fgetc` cast to an unsigned char does. */
    method NextByte() returns (c: Byte)
      modifies this`pos
      ensures c == ByteRead(data, old(pos))
      ensures pos == Advance(data, old(pos))
    {
      c := 0xff;
      if pos < |data| {
        c := data[pos];
        pos := pos + 1;
      }
    }

    /** Appends the next byte of the file to the buffer and drops the filler after an 0xff. */
    method FetchByte()
      requires Holds() && vbits <= 24
      modifies this
      ensures Holds() && vbits == old(vbits) + 8
      ensures start == old(start) && Consumed() == old(Consumed())
    {
      hide Pow2, Window, Value, DestuffedBits, Shl, Mod;
      SmallRemainder(Shl(bitbuf, 8) + ByteRead(data, pos), WORD);
      WindowExtendsByByte(data, start, Consumed(), vbits, fetched);
      AppendByte(bitbuf, vbits, ByteRead(data, pos));
      var c := NextByte();
      bitbuf := Mod(Shl(bitbuf, 8) + c, WORD);
      if c == 0xff {
        var _ := NextByte();
      }
      fetched := fetched + 1;
      vbits := vbits + 8;
    }

    /** A request for -1 bits empties and primes the buffer; any other hands out that many bits of the stream. */
    method GetBits(nbits: int) returns (ret: nat)
      requires -1 <= nbits <= 25
      requires nbits >= 0 ==> Valid()
      modifies this
      ensures Valid()
      ensures nbits == -1 ==> ret == 0 && start == old(pos) && Consumed() == 0
      ensures nbits >= 0 ==> start == old(start) && Consumed() == old(Consumed()) + nbits
      ensures nbits >= 0 ==> ret == Value(Window(Source(), old(Consumed()), nbits))
    {
      hide Pow2, Window, Value, DestuffedBits, Shl, Shr, Mod, Div;
      EmptyWindow(Source(), Consumed());
      if nbits == 0 {
        return 0;
      }
      if nbits == -1 {
        ret, bitbuf, vbits := 0, 0, 0;
        start, fetched := pos, 0;
        EmptyWindow(Source(), 0);
        SmallRemainder(0, Pow2(0));
      } else {
        ret := Shr(Shl(bitbuf, 32 - vbits), 32 - nbits);
        TakeBits(Source(), Consumed(), bitbuf, vbits, nbits);
        vbits := vbits - nbits;
      }
      while vbits < 25
        invariant Holds()
        invariant start == if nbits == -1 then old(pos) else old(start)
        invariant Consumed() == if nbits == -1 then 0 else old(Consumed()) + nbits
        decreases 25 - vbits
      {
        FetchByte();
      }
    }
  }
}
