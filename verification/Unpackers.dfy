/** The fixed-width unpackers: packed 10, 12 and 14-bit samples, with and without padding, and row by row. */
module Unpackers {
  import opened Bits
  import opened Bitwise
  import opened CanonStream

  datatype Error = InvalidParam | InvalidFormat | Decompression | NotEnoughBits | UnexpectedEnd | Unreachable

  datatype Result<+T> = Ok(value: T) | Err(error: Error)

  /** The caller's growing vector of samples. */
  class Samples {
    var data: seq<nat>

    constructor ()
      ensures data == []
    {
      data := [];
    }
  }

  // ----- meaning: values read off a bit string, most significant bit first

  /** The number of bits of `count` values of `n` bits. */
  function Width(n: nat, count: nat): nat {
    if count == 0 then 0 else n + Width(n, count - 1)
  }

  lemma {:induction false} WidthIsProduct(n: nat, count: nat)
    ensures Width(n, count) == n * count
  {
    if count > 0 {
      WidthIsProduct(n, count - 1);
      assert n * count == n * (count - 1) + n;
    }
  }

  lemma {:induction false} WidthAdd(n: nat, j: nat, k: nat)
    ensures Width(n, j + k) == Width(n, j) + Width(n, k)
  {
    if j > 0 {
      WidthAdd(n, j - 1, k);
    }
  }

  lemma {:induction false} WidthMonotone(n: nat, j: nat, k: nat)
    requires j <= k
    ensures Width(n, j) <= Width(n, k)
  {
    if j < k {
      WidthMonotone(n, j, k - 1);
    }
  }

  function ReadAll(bits: seq<bool>, n: nat, count: nat): (values: seq<nat>)
    requires Width(n, count) <= |bits|
    ensures |values| == count
    decreases count
  {
    if count == 0 then [] else [Value(bits[..n])] + ReadAll(bits[n..], n, count - 1)
  }

  lemma ReadStep(head: seq<bool>, rest: seq<bool>, n: nat, count: nat)
    requires |head| == n && Width(n, count) <= |rest|
    ensures Width(n, count + 1) == n + Width(n, count)
    ensures ReadAll(head + rest, n, count + 1) == [Value(head)] + ReadAll(rest, n, count)
  {
    hide Value;
    assert (head + rest)[..n] == head && (head + rest)[n..] == rest;
  }

  lemma ReadNone(bits: seq<bool>, n: nat)
    ensures Width(n, 0) == 0 && ReadAll(bits, n, 0) == []
  {
  }

  /** Value `k` is the `n` bits behind those of the values before it. */
  lemma {:induction false} ReadAllAt(bits: seq<bool>, n: nat, count: nat, k: nat)
    requires Width(n, count) <= |bits| && k < count
    ensures Width(n, k) + n <= |bits|
    ensures ReadAll(bits, n, count)[k] == Value(bits[Width(n, k)..Width(n, k) + n])
    decreases count
  {
    hide Value;
    WidthMonotone(n, k + 1, count);
    if k > 0 {
      ReadAllAt(bits[n..], n, count - 1, k - 1);
      assert bits[n..][Width(n, k - 1)..Width(n, k - 1) + n] == bits[Width(n, k)..Width(n, k) + n];
    }
  }

  lemma {:induction false} ReadAllConcat(a: seq<bool>, b: seq<bool>, n: nat, j: nat, k: nat)
    requires Width(n, j) == |a| && Width(n, k) <= |b|
    ensures Width(n, j + k) <= |a + b|
    ensures ReadAll(a + b, n, j + k) == ReadAll(a, n, j) + ReadAll(b, n, k)
    decreases j
  {
    hide Value, ReadAll, Width;
    WidthAdd(n, j, k);
    if j == 0 {
      ReadNone(a, n);
      assert a + b == b;
    } else {
      WidthAdd(n, 1, j - 1);
      WidthOne(n);
      var head, rest := a[..n], a[n..];
      ReadAllConcat(rest, b, n, j - 1, k);
      ReadStep(head, rest, n, j - 1);
      ReadStep(head, rest + b, n, j - 1 + k);
      assert head + rest == a && head + (rest + b) == a + b;
    }
  }

  lemma WidthOne(n: nat)
    ensures Width(n, 1) == n
  {
    assert Width(n, 1) == n + Width(n, 0);
  }

  lemma {:induction false} BytesToBitsConcat(a: seq<Byte>, b: seq<Byte>)
    ensures BytesToBits(a + b) == BytesToBits(a) + BytesToBits(b)
  {
    if a == [] {
      assert a + b == b;
    } else {
      assert (a + b)[1..] == a[1..] + b;
      BytesToBitsConcat(a[1..], b);
    }
  }

  // ----- three bytes hold two samples

  /** All of the first byte, then the high half of the second. */
  function ByteAndHalf(b0: nat, b1: nat): nat {
    BitOr(b0 * 16, b1 / 16)
  }

  /** The low half of the first byte, then all of the second. */
  function HalfAndByte(b0: nat, b1: nat): nat {
    BitOr(BitAnd(b0, 0xf) * 256, b1)
  }

  /** The two samples of three bytes in the order their bits have in memory. */
  function BigGroup(b0: Byte, b1: Byte, b2: Byte): seq<nat> {
    [ByteAndHalf(b0, b1), HalfAndByte(b1, b2)]
  }

  /** The two samples of three bytes read as one little-endian number. */
  function LittleGroup(b0: Byte, b1: Byte, b2: Byte): seq<nat> {
    [HalfAndByte(b1, b0), ByteAndHalf(b2, b1)]
  }

  predicate TwelveBit(values: seq<nat>) {
    forall k :: 0 <= k < |values| ==> values[k] < 4096
  }

  function Group(big: bool, b0: Byte, b1: Byte, b2: Byte): (g: seq<nat>)
    ensures |g| == 2 && TwelveBit(g)
  {
    GroupValues(b0, b1, b2);
    if big then BigGroup(b0, b1, b2) else LittleGroup(b0, b1, b2)
  }

  lemma GroupValues(b0: Byte, b1: Byte, b2: Byte)
    ensures BigGroup(b0, b1, b2) == [b0 * 16 + b1 / 16, b1 % 16 * 256 + b2]
    ensures LittleGroup(b0, b1, b2) == [b1 % 16 * 256 + b0, b2 * 16 + b1 / 16]
  {
    Pow2Values();
    assert Pow2(4) == 16;
    hide BitOr, BitAnd, Pow2;
    AndNibble(b1);
    OrDisjoint(b0, b1 / 16, 4);
    OrDisjoint(b2, b1 / 16, 4);
    OrDisjoint(b1 % 16, b0, 8);
    OrDisjoint(b1 % 16, b2, 8);
  }

  /** One group more in the count of groups, and the pairs, triples and words of four that counts make up. */
  lemma GroupCounts(k: nat, len: nat)
    ensures len >= 3 ==> len / 3 == (len - 3) / 3 + 1
    ensures 2 * k % 2 == 0 && 2 * k / 2 == k && 3 * k % 3 == 0 && 12 * k % 4 == 0
  {
  }

  /** The samples of all whole groups of three bytes. */
  function Triples(big: bool, input: seq<Byte>): (values: seq<nat>)
    ensures |values| == 2 * (|input| / 3) && |values| % 2 == 0 && TwelveBit(values)
  {
    GroupCounts(|input| / 3, |input|);
    if |input| < 3 then [] else Group(big, input[0], input[1], input[2]) + Triples(big, input[3..])
  }

  lemma PaddedCounts(len: nat)
    ensures len >= 16 ==> len / 16 == (len - 16) / 16 + 1
    ensures 2 * (15 / 3) == 10
  {
  }

  /** As `Triples`, with a padding byte behind every fifteen. */
  function Padded(big: bool, input: seq<Byte>): (values: seq<nat>)
    ensures |values| == 10 * (|input| / 16)
  {
    PaddedCounts(|input|);
    if |input| < 16 then [] else Triples(big, input[..15]) + Padded(big, input[16..])
  }

  function Unpacked(big: bool, pad: bool, input: seq<Byte>): seq<nat> {
    if pad then Padded(big, input) else Triples(big, input)
  }

  predicate Sized(pad: bool, len: nat) {
    if pad then len % 16 == 0 else len % 3 == 0
  }

  lemma {:induction false} TriplesConcat(big: bool, a: seq<Byte>, b: seq<Byte>)
    requires |a| % 3 == 0
    ensures Triples(big, a + b) == Triples(big, a) + Triples(big, b)
  {
    hide Group;
    if a == [] {
      assert a + b == b;
    } else {
      assert (a + b)[3..] == a[3..] + b;
      TriplesConcat(big, a[3..], b);
    }
  }

  lemma TriplesAt(big: bool, input: seq<Byte>, g: nat)
    requires 3 * g + 3 <= |input|
    ensures 2 * g + 2 <= |Triples(big, input)|
    ensures Triples(big, input)[2 * g..2 * g + 2] == Group(big, input[3 * g], input[3 * g + 1], input[3 * g + 2])
  {
    hide Triples, Group;
    var first, rest := input[..3 * g], input[3 * g..];
    assert input == first + rest;
    GroupCounts(g, 0);
    TriplesConcat(big, first, rest);
    FirstTriple(big, rest);
    assert |Triples(big, first)| == 2 * g;
  }

  lemma FirstTriple(big: bool, input: seq<Byte>)
    requires |input| >= 3
    ensures Triples(big, input) == Group(big, input[0], input[1], input[2]) + Triples(big, input[3..])
  {
    hide Group;
  }

  lemma {:induction false} PaddedConcat(big: bool, a: seq<Byte>, b: seq<Byte>)
    requires |a| % 16 == 0
    ensures Padded(big, a + b) == Padded(big, a) + Padded(big, b)
  {
    hide Triples;
    if a == [] {
      assert a + b == b;
    } else {
      assert (a + b)[16..] == a[16..] + b;
      assert (a + b)[..15] == a[..15];
      PaddedConcat(big, a[16..], b);
    }
  }

  // ----- the packers

  function PackGroup(big: bool, v0: nat, v1: nat): (bytes: seq<Byte>)
    requires v0 < 4096 && v1 < 4096
    ensures |bytes| == 3
  {
    if big then [v0 / 16, v0 % 16 * 16 + v1 / 256, v1 % 256]
    else [v0 % 256, v1 % 16 * 16 + v0 / 256, v1 / 16]
  }

  function PackTriples(big: bool, values: seq<nat>): (bytes: seq<Byte>)
    requires |values| % 2 == 0 && TwelveBit(values)
    ensures |bytes| == |values| / 2 * 3
  {
    if values == [] then [] else PackGroup(big, values[0], values[1]) + PackTriples(big, values[2..])
  }

  /** Ten samples and one padding byte, over and over. */
  function PackPadded(big: bool, values: seq<nat>, pads: seq<Byte>): (bytes: seq<Byte>)
    requires |values| == 10 * |pads| && TwelveBit(values)
    ensures |bytes| == 16 * |pads|
  {
    if pads == [] then [] else PackTriples(big, values[..10]) + [pads[0]] + PackPadded(big, values[10..], pads[1..])
  }

  function PadsOf(input: seq<Byte>): (pads: seq<Byte>)
    ensures |pads| == |input| / 16
  {
    if |input| < 16 then [] else [input[15]] + PadsOf(input[16..])
  }

  lemma PackedLength(big: bool, values: seq<nat>, k: nat)
    requires |values| == 2 * k && |values| % 2 == 0 && TwelveBit(values)
    ensures |PackTriples(big, values)| == 3 * k && |PackTriples(big, values)| % 3 == 0
  {
    hide PackTriples, TwelveBit;
    GroupCounts(k, 0);
  }

  lemma UnpackUndoesPackGroup(big: bool, v0: nat, v1: nat)
    requires v0 < 4096 && v1 < 4096
    ensures var bytes := PackGroup(big, v0, v1);
            Group(big, bytes[0], bytes[1], bytes[2]) == [v0, v1]
  {
    hide BigGroup, LittleGroup, TwelveBit;
    var bytes := PackGroup(big, v0, v1);
    GroupValues(bytes[0], bytes[1], bytes[2]);
    if big {
      SplitNumber(v0 % 16, v1 / 256, 16);
    } else {
      SplitNumber(v1 % 16, v0 / 256, 16);
    }
  }

  lemma SplitNumber(hi: nat, lo: nat, d: nat)
    requires lo < d && (d == 16 || d == 256)
    ensures (hi * d + lo) / d == hi && (hi * d + lo) % d == lo
  {
  }

  lemma PackUndoesUnpackGroup(big: bool, b0: Byte, b1: Byte, b2: Byte)
    ensures var g := Group(big, b0, b1, b2);
            PackGroup(big, g[0], g[1]) == [b0, b1, b2]
  {
    hide BigGroup, LittleGroup, TwelveBit;
    GroupValues(b0, b1, b2);
    if big {
      SplitNumber(b0, b1 / 16, 16);
      SplitNumber(b1 % 16, b2, 256);
    } else {
      SplitNumber(b2, b1 / 16, 16);
      SplitNumber(b1 % 16, b0, 256);
    }
  }

  lemma {:induction false} UnpackUndoesPack(big: bool, values: seq<nat>)
    requires |values| % 2 == 0 && TwelveBit(values)
    ensures Triples(big, PackTriples(big, values)) == values
  {
    hide Group, PackGroup;
    if values != [] {
      var head, rest := PackGroup(big, values[0], values[1]), PackTriples(big, values[2..]);
      assert (head + rest)[3..] == rest;
      UnpackUndoesPackGroup(big, values[0], values[1]);
      UnpackUndoesPack(big, values[2..]);
    }
  }

  lemma PackTriplesStep(big: bool, g: seq<nat>, rest: seq<nat>)
    requires |g| == 2 && |rest| % 2 == 0 && TwelveBit(g) && TwelveBit(rest)
    ensures TwelveBit(g + rest)
    ensures PackTriples(big, g + rest) == PackGroup(big, g[0], g[1]) + PackTriples(big, rest)
  {
    hide PackGroup;
    assert (g + rest)[2..] == rest;
  }

  lemma {:induction false} PackUndoesUnpack(big: bool, input: seq<Byte>)
    requires |input| % 3 == 0
    ensures PackTriples(big, Triples(big, input)) == input
  {
    hide Group, PackGroup, PackTriples;
    if input == [] {
      NothingPacked(big);
    } else {
      PackUndoesUnpackGroup(big, input[0], input[1], input[2]);
      PackUndoesUnpack(big, input[3..]);
      PackTriplesStep(big, Group(big, input[0], input[1], input[2]), Triples(big, input[3..]));
    }
  }

  lemma NothingPacked(big: bool)
    ensures PackTriples(big, []) == [] == PackPadded(big, [], [])
  {
  }

  lemma PaddedStep(big: bool, head: seq<Byte>, pad: Byte, rest: seq<Byte>)
    requires |head| == 15
    ensures Padded(big, head + [pad] + rest) == Triples(big, head) + Padded(big, rest)
    ensures PadsOf(head + [pad] + rest) == [pad] + PadsOf(rest)
  {
    hide Triples;
    var all := head + [pad] + rest;
    assert all[..15] == head && all[15] == pad && all[16..] == rest;
  }

  lemma {:induction false} UnpackUndoesPackPadded(big: bool, values: seq<nat>, pads: seq<Byte>)
    requires |values| == 10 * |pads| && TwelveBit(values)
    ensures Padded(big, PackPadded(big, values, pads)) == values
    ensures PadsOf(PackPadded(big, values, pads)) == pads
    decreases |pads|
  {
    hide Triples, PackTriples, Padded, PadsOf;
    if pads == [] {
      NothingPadded(big);
    } else {
      UnpackUndoesPack(big, values[..10]);
      UnpackUndoesPackPadded(big, values[10..], pads[1..]);
      PaddedStep(big, PackTriples(big, values[..10]), pads[0], PackPadded(big, values[10..], pads[1..]));
    }
  }

  lemma NothingPadded(big: bool)
    ensures Padded(big, []) == [] == PadsOf([])
  {
  }

  lemma PackPaddedStep(big: bool, ten: seq<nat>, rest: seq<nat>, pad: Byte, pads: seq<Byte>)
    requires |ten| == 10 && |rest| == 10 * |pads| && TwelveBit(ten) && TwelveBit(rest)
    ensures TwelveBit(ten + rest)
    ensures PackPadded(big, ten + rest, [pad] + pads) == PackTriples(big, ten) + [pad] + PackPadded(big, rest, pads)
  {
    hide PackTriples;
    assert (ten + rest)[..10] == ten && (ten + rest)[10..] == rest && ([pad] + pads)[1..] == pads;
  }

  lemma {:induction false} PackUndoesUnpackPadded(big: bool, input: seq<Byte>)
    requires |input| % 16 == 0
    ensures TwelveBit(Padded(big, input))
    ensures PackPadded(big, Padded(big, input), PadsOf(input)) == input
  {
    hide Triples, PackTriples, PackPadded;
    if input == [] {
      NothingPacked(big);
    } else {
      PackUndoesUnpack(big, input[..15]);
      PackUndoesUnpackPadded(big, input[16..]);
      PackPaddedStep(big, Triples(big, input[..15]), Padded(big, input[16..]), input[15], PadsOf(input[16..]));
      assert input == input[..15] + [input[15]] + input[16..];
    }
  }

  // ----- big-endian groups are the bits in order; little-endian groups are 24-bit numbers

  lemma GroupIsTwoReads(b0: Byte, b1: Byte, b2: Byte)
    ensures ReadAll(BytesToBits([b0, b1, b2]), 12, 2) == BigGroup(b0, b1, b2)
  {
    Pow2Values();
    hide ToBits, BitOr, BitAnd, Pow2, Value;
    var x0, x1, x2 := ToBits(b0, 8), ToBits(b1, 8), ToBits(b2, 8);
    ThreeBytes(b0, b1, b2);
    var bits := BytesToBits([b0, b1, b2]);
    assert x1 == x1[..4] + x1[4..];
    assert bits[..12] == x0 + x1[..4] && bits[12..] == x1[4..] + x2;
    SplitByte(b1);
    ValueOfToBits(b0, 8);
    ValueOfToBits(b2, 8);
    ValueConcat(x0, x1[..4]);
    ValueConcat(x1[4..], x2);
    GroupValues(b0, b1, b2);
    TwoReads(bits);
  }

  lemma TwoReads(bits: seq<bool>)
    requires |bits| == 24
    ensures ReadAll(bits, 12, 2) == [Value(bits[..12]), Value(bits[12..])]
    ensures Pow2(4) == 16
  {
    hide Value;
    assert bits[12..][..12] == bits[12..];
    OneRead(bits[12..], 12);
  }

  lemma ThreeBytes(b0: Byte, b1: Byte, b2: Byte)
    ensures BytesToBits([b0, b1, b2]) == ToBits(b0, 8) + ToBits(b1, 8) + ToBits(b2, 8)
  {
    hide ToBits;
    assert [b0, b1, b2][1..] == [b1, b2] && [b1, b2][1..] == [b2] && [b2][1..] == [];
    assert BytesToBits([b2]) == ToBits(b2, 8) + BytesToBits([]);
  }

  lemma SplitByte(b: Byte)
    ensures Value(ToBits(b, 8)[..4]) == b / 16
    ensures Value(ToBits(b, 8)[4..]) == b % 16
  {
    var x := ToBits(b, 8);
    Pow2Values();
    assert Pow2(4) == 16;
    hide ToBits, Value, Pow2;
    assert x == x[..4] + x[4..];
    ValueOfToBits(b, 8);
    ValueSplit(x[..4], x[4..]);
  }

  /** Unpadded big-endian unpacking reads the input as one bit string, twelve bits at a time. */
  lemma {:induction false} TriplesReadBits(input: seq<Byte>)
    requires |input| % 3 == 0
    ensures Width(12, 2 * (|input| / 3)) == 8 * |input|
    ensures Triples(true, input) == ReadAll(BytesToBits(input), 12, 2 * (|input| / 3))
  {
    hide BigGroup, ReadAll, BytesToBits;
    WidthIsProduct(12, 2 * (|input| / 3));
    if input == [] {
      ReadNone(BytesToBits(input), 12);
    } else {
      var head := [input[0], input[1], input[2]];
      assert input == head + input[3..];
      TriplesReadBits(input[3..]);
      GroupIsTwoReads(input[0], input[1], input[2]);
      BytesToBitsConcat(head, input[3..]);
      ReadAllConcat(BytesToBits(head), BytesToBits(input[3..]), 12, 2, 2 * (|input[3..]| / 3));
    }
  }

  /** A little-endian group holds the three bytes as one number of two base-4096 digits, low digit first. */
  lemma LittleGroupIsNumber(b0: Byte, b1: Byte, b2: Byte)
    ensures var g := LittleGroup(b0, b1, b2);
            g[0] < 4096 && g[1] < 4096 && g[0] + 4096 * g[1] == b0 + 256 * b1 + 65536 * b2
  {
    hide BitOr, BitAnd;
    GroupValues(b0, b1, b2);
  }

  /** Every pair of unpacked samples is one number of 24 bits: of the three bytes in order, high sample first, or of the
      bytes in reverse order, low sample first. */
  lemma PairIsNumber(big: bool, input: seq<Byte>, k: nat)
    requires 3 * k + 3 <= |input|
    ensures |Triples(big, input)| >= 2 * k + 2
    ensures var v := Triples(big, input);
            var b0: int, b1: int, b2: int := input[3 * k], input[3 * k + 1], input[3 * k + 2];
            && v[2 * k] < 4096 && v[2 * k + 1] < 4096
            && (big ==> 4096 * v[2 * k] + v[2 * k + 1] == 65536 * b0 + 256 * b1 + b2)
            && (!big ==> v[2 * k] + 4096 * v[2 * k + 1] == b0 + 256 * b1 + 65536 * b2)
  {
    hide Triples, BigGroup, LittleGroup;
    var b0, b1, b2 := input[3 * k], input[3 * k + 1], input[3 * k + 2];
    TriplesAt(big, input, k);
    GroupIsNumber(big, b0, b1, b2);
    var v := Triples(big, input);
    assert v[2 * k..2 * k + 2][0] == v[2 * k] && v[2 * k..2 * k + 2][1] == v[2 * k + 1];
  }

  lemma GroupIsNumber(big: bool, b0: Byte, b1: Byte, b2: Byte)
    ensures var g := Group(big, b0, b1, b2);
            && g[0] < 4096 && g[1] < 4096
            && (big ==> 4096 * g[0] + g[1] == 65536 * b0 + 256 * b1 + b2)
            && (!big ==> g[0] + 4096 * g[1] == b0 + 256 * b1 + 65536 * b2)
  {
    hide BigGroup, LittleGroup;
    GroupValues(b0, b1, b2);
  }

  lemma PaddedAt(big: bool, input: seq<Byte>, q: nat, k: nat)
    requires 16 * q + 16 <= |input| && k < 5
    ensures |Padded(big, input)| >= 10 * q + 10
    ensures Padded(big, input)[10 * q + 2 * k] == Triples(big, input[16 * q..16 * q + 15])[2 * k]
    ensures Padded(big, input)[10 * q + 2 * k + 1] == Triples(big, input[16 * q..16 * q + 15])[2 * k + 1]
  {
    hide Triples, Padded;
    var first, rest := input[..16 * q], input[16 * q..];
    assert input == first + rest;
    PaddedConcat(big, first, rest);
    PaddedHead(big, rest);
    assert rest[..15] == input[16 * q..16 * q + 15];
    assert |Padded(big, first)| == 10 * q;
  }

  lemma PaddedHead(big: bool, input: seq<Byte>)
    requires |input| >= 16
    ensures Padded(big, input) == Triples(big, input[..15]) + Padded(big, input[16..])
    ensures |Triples(big, input[..15])| == 10
  {
    hide Triples;
  }

  /** The same with a padding byte behind every five groups. */
  lemma PaddedPairIsNumber(big: bool, input: seq<Byte>, q: nat, k: nat)
    requires 16 * q + 16 <= |input| && k < 5
    ensures |Padded(big, input)| >= 10 * q + 10
    ensures var v, at, from := Padded(big, input), 10 * q + 2 * k, 16 * q + 3 * k;
            var b0: int, b1: int, b2: int := input[from], input[from + 1], input[from + 2];
            && v[at] < 4096 && v[at + 1] < 4096
            && (big ==> 4096 * v[at] + v[at + 1] == 65536 * b0 + 256 * b1 + b2)
            && (!big ==> v[at] + 4096 * v[at + 1] == b0 + 256 * b1 + 65536 * b2)
  {
    hide Triples, Padded;
    var block := input[16 * q..16 * q + 15];
    PaddedAt(big, input, q, k);
    PairIsNumber(big, block, k);
    assert block[3 * k] == input[16 * q + 3 * k] && block[3 * k + 1] == input[16 * q + 3 * k + 1];
    assert block[3 * k + 2] == input[16 * q + 3 * k + 2];
  }

  // ----- the loops

  /** The samples from a block of fifteen bytes on: those of the block, and those behind its padding. */
  lemma NextBlock(big: bool, pad: bool, input: seq<Byte>, start: nat)
    requires start + 15 + (if pad then 1 else 0) <= |input|
    ensures var next := start + 15 + (if pad then 1 else 0);
            Unpacked(big, pad, input[start..])
            == Triples(big, input[start..start + 15]) + Unpacked(big, pad, input[next..])
  {
    hide Triples;
    if pad {
      assert input[start..][..15] == input[start..start + 15] && input[start..][16..] == input[start + 16..];
    } else {
      assert input[start..] == input[start..start + 15] + input[start + 15..];
      TriplesConcat(big, input[start..start + 15], input[start + 15..]);
    }
  }

  lemma NextGroup(big: bool, input: seq<Byte>, src: nat, end: nat)
    requires src + 3 <= end <= |input|
    ensures Triples(big, input[src..end])
         == Group(big, input[src], input[src + 1], input[src + 2]) + Triples(big, input[src + 3..end])
  {
    hide Group;
    assert input[src..end][3..] == input[src + 3..end];
  }

  lemma NoGroups(big: bool, pad: bool, input: seq<Byte>, at: nat)
    requires at <= |input|
    ensures Triples(big, input[at..at]) == []
    ensures Unpacked(big, pad, input[|input|..]) == []
  {
  }

  lemma BlockBounds(len: nat, size: nat, i: nat)
    requires size == 15 || size == 16
    ensures i < len / size ==> Width(size, i) + size <= len
    ensures i == len / size ==> Width(size, i) + len % size == len
    ensures Width(size, i + 1) == Width(size, i) + size && Width(size, 0) == 0
  {
    WidthIsProduct(size, i);
    hide Width;
    assert Width(size, i + 1) == Width(size, i) + size && Width(size, 0) == 0 by {
      NextWidth(size, i);
    }
  }

  lemma NextWidth(size: nat, i: nat)
    ensures Width(size, i + 1) == Width(size, i) + size && Width(size, 0) == 0
  {
  }

  /** What is left of the input while the group loop is in the middle of a block: `end` is where its groups end. */
  ghost predicate InBlock(big: bool, input: seq<Byte>, src: nat, end: nat, done: seq<nat>, behind: seq<nat>, all: seq<nat>) {
    src <= end <= |input| && (end - src) % 3 == 0 && done + Triples(big, input[src..end]) + behind == all
  }

  lemma GroupStep(big: bool, input: seq<Byte>, src: nat, end: nat, done: seq<nat>, behind: seq<nat>, all: seq<nat>)
    requires InBlock(big, input, src, end, done, behind, all) && src < end
    ensures src + 3 <= end
    ensures InBlock(big, input, src + 3, end, done + Group(big, input[src], input[src + 1], input[src + 2]), behind, all)
  {
    hide Triples, Group;
    NextGroup(big, input, src, end);
    var g, rest := Group(big, input[src], input[src + 1], input[src + 2]), Triples(big, input[src + 3..end]);
    assert done + (g + rest) + behind == done + g + rest + behind;
  }

  /** The two unpackers: they differ in how three bytes are combined and in which compressions mean padding. */
  method Unpack12to16(big: bool, pad: bool, input: seq<Byte>, out: Samples) returns (r: Result<nat>)
    modifies out
    ensures Sized(pad, |input|) ==> r == Ok(|Unpacked(big, pad, input)|)
    ensures Sized(pad, |input|) ==> out.data == old(out.data) + Unpacked(big, pad, input)
    ensures !Sized(pad, |input|) ==> r == Err(Decompression) && out.data == old(out.data)
  {
    hide Triples, Padded, Group, InBlock, Unpacked, Width;
    var padding := if pad then 1 else 0;
    var n := |input| / (15 + padding);
    var rest := |input| % (15 + padding);
    var src := 0;
    if padding != 0 && |input| % 16 != 0 {
      return Err(Decompression);
    }
    if rest % 3 != 0 {
      return Err(Decompression);
    }
    var written := 0;
    ghost var all := old(out.data) + Unpacked(big, pad, input);
    assert input[0..] == input;
    NextWidth(15 + padding, 0);
    for i := 0 to n + 1
      invariant i <= n ==> src == Width(15 + padding, i) <= |input|
      invariant i <= n ==> out.data + Unpacked(big, pad, input[src..]) == all
      invariant i == n + 1 ==> out.data == all
      invariant |out.data| == |old(out.data)| + written
    {
      BlockBounds(|input|, 15 + padding, i);
      var m := if i == n then rest / 3 else 5;
      ghost var end := src + 3 * m;
      ghost var behind := if i == n then [] else Unpacked(big, pad, input[end + padding..]);
      BlockEntered(big, pad, input, src, i == n, out.data, all);
      for j := 0 to m
        invariant end == src + 3 * (m - j)
        invariant InBlock(big, input, src, end, out.data, behind, all)
        invariant |out.data| == |old(out.data)| + written
      {
        GroupStep(big, input, src, end, out.data, behind, all);
        var b0, b1, b2 := input[src], input[src + 1], input[src + 2];
        src := src + 3;
        out.data := out.data + Group(big, b0, b1, b2);
        written := written + 2;
      }
      BlockLeft(big, input, src, out.data, behind, all);
      src := src + padding;
    }
    r := Ok(written);
  }

  lemma BlockEntered(big: bool, pad: bool, input: seq<Byte>, src: nat, last: bool, done: seq<nat>, all: seq<nat>)
    requires src <= |input| && done + Unpacked(big, pad, input[src..]) == all
    requires if last then (|input| - src) % 3 == 0 && |input| - src < 15 && (pad ==> src == |input|)
             else src + 15 + (if pad then 1 else 0) <= |input|
    ensures if last then InBlock(big, input, src, |input|, done, [], all)
            else InBlock(big, input, src, src + 15, done,
                         Unpacked(big, pad, input[src + 15 + (if pad then 1 else 0)..]), all)
  {
    hide Triples, Padded;
    if last {
      assert input[src..|input|] == input[src..];
      NoGroups(big, pad, input, src);
    } else {
      NextBlock(big, pad, input, src);
    }
  }

  lemma BlockLeft(big: bool, input: seq<Byte>, src: nat, done: seq<nat>, behind: seq<nat>, all: seq<nat>)
    requires InBlock(big, input, src, src, done, behind, all)
    ensures done + behind == all
  {
  }

  // ----- the compressions

  datatype Compression = NoCompression | NikonPack | PentaxPack | Olympus | PanasonicRaw1 | OtherCompression

  predicate BigPads(compression: Compression) {
    compression == NikonPack
  }

  predicate LittlePads(compression: Compression) {
    compression == Olympus || compression == PanasonicRaw1
  }

  method UnpackBe12to16(input: seq<Byte>, out: Samples, compression: Compression) returns (r: Result<nat>)
    modifies out
    ensures r.Ok? <==> if compression == NikonPack then |input| % 16 == 0 else |input| % 3 == 0
    ensures r.Ok? ==> out.data == old(out.data) + Unpacked(true, compression == NikonPack, input)
    ensures r.Ok? ==> r.value == |out.data| - |old(out.data)|
    ensures r.Err? ==> r.error == Decompression && out.data == old(out.data)
  {
    hide Unpacked;
    r := Unpack12to16(true, BigPads(compression), input, out);
  }

  method UnpackLe12to16(input: seq<Byte>, out: Samples, compression: Compression) returns (r: Result<nat>)
    modifies out
    ensures r.Ok? <==> if compression == Olympus || compression == PanasonicRaw1 then |input| % 16 == 0
                       else |input| % 3 == 0
    ensures r.Ok? ==> out.data == old(out.data)
                                  + Unpacked(false, compression == Olympus || compression == PanasonicRaw1, input)
    ensures r.Ok? ==> r.value == |out.data| - |old(out.data)|
    ensures r.Err? ==> r.error == Decompression && out.data == old(out.data)
  {
    hide Unpacked;
    r := Unpack12to16(false, LittlePads(compression), input, out);
  }

  // ----- any width up to sixteen bits

  /** How many values of `n` bits there are enough bits for, up to `count`. */
  function Available(bits: nat, n: nat, count: nat): (k: nat)
    ensures k <= count && Width(n, k) <= bits
    ensures k < count ==> bits < Width(n, k + 1)
  {
    if count == 0 || Width(n, count) <= bits then count else Available(bits, n, count - 1)
  }

  /** Reads values through a bit reader, which fails when the bits run out. */
  method UnpackBento16(input: seq<Byte>, n: nat, outLen: nat, out: Samples) returns (r: Result<nat>)
    modifies out
    ensures n > 16 ==> r == Err(InvalidParam) && out.data == old(out.data)
    ensures n <= 16 ==> r == if n * outLen <= 8 * |input| then Ok(outLen) else Err(NotEnoughBits)
    ensures n <= 16 ==>
              var k := Available(8 * |input|, n, outLen);
              out.data == old(out.data) + ReadAll(BytesToBits(input), n, k)
  {
    hide ReadAll, BytesToBits, Width, Available;
    if n > 16 {
      return Err(InvalidParam);
    }
    WidthIsProduct(n, outLen);
    r := ReadValues(input, n, outLen, out);
  }

  method ReadValues(input: seq<Byte>, n: nat, outLen: nat, out: Samples) returns (r: Result<nat>)
    modifies out
    ensures r == if Width(n, outLen) <= 8 * |input| then Ok(outLen) else Err(NotEnoughBits)
    ensures out.data == old(out.data) + ReadAll(BytesToBits(input), n, Available(8 * |input|, n, outLen))
  {
    hide ReadAll, BytesToBits, Value, Width, Available;
    ghost var bits := BytesToBits(input);
    var len := 8 * |input|;
    var pos, written := 0, 0;
    ReadNone(bits, n);
    for i := 0 to outLen
      invariant written == i && pos == Width(n, i) <= len
      invariant out.data == old(out.data) + ReadAll(bits, n, i)
    {
      NextRead(bits, n, i);
      if pos + n > len {
        AvailableIs(len, n, outLen, i);
        return Err(NotEnoughBits);
      }
      var t := ReadBits(input, pos, n);
      pos := pos + n;
      out.data := out.data + [t];
      written := written + 1;
    }
    AvailableIs(len, n, outLen, outLen);
    r := Ok(written);
  }

  /** The fast big-endian unpacker and the bit reader at twelve bits append the same samples. */
  method UnpackBothWays(input: seq<Byte>, fast: Samples, slow: Samples) returns (rf: Result<nat>, rs: Result<nat>)
    requires |input| % 3 == 0 && fast != slow && fast.data == slow.data
    modifies fast, slow
    ensures rf == rs == Ok(2 * (|input| / 3))
    ensures fast.data == slow.data == old(fast.data) + Triples(true, input)
  {
    hide ReadAll, BytesToBits, Width, Triples, Available;
    var count := 2 * (|input| / 3);
    TriplesReadBits(input);
    WidthIsProduct(12, count);
    AvailableIs(8 * |input|, 12, count, count);
    rf := UnpackBe12to16(input, fast, NoCompression);
    rs := UnpackBento16(input, 12, count, slow);
  }

  lemma NextRead(bits: seq<bool>, n: nat, k: nat)
    requires Width(n, k) <= |bits|
    ensures Width(n, k + 1) == Width(n, k) + n
    ensures Width(n, k + 1) <= |bits| ==>
              ReadAll(bits, n, k + 1) == ReadAll(bits, n, k) + [Value(bits[Width(n, k)..Width(n, k) + n])]
  {
    if Width(n, k + 1) <= |bits| {
      var w := Width(n, k);
      var a, b := bits[..w], bits[w..];
      assert a + b == bits && b[..n] == bits[w..w + n];
      ReadPrefix(bits, n, k);
      ReadAllConcat(a, b, n, k, 1);
      OneRead(b, n);
    }
  }

  lemma OneRead(bits: seq<bool>, n: nat)
    requires n <= |bits|
    ensures Width(n, 1) == n && ReadAll(bits, n, 1) == [Value(bits[..n])]
  {
    hide Value;
    assert ReadAll(bits, n, 1) == [Value(bits[..n])] + ReadAll(bits[n..], n, 0);
  }

  lemma {:induction false} ReadPrefix(bits: seq<bool>, n: nat, k: nat)
    requires Width(n, k) <= |bits|
    ensures ReadAll(bits[..Width(n, k)], n, k) == ReadAll(bits, n, k)
    decreases k
  {
    hide Value;
    if k > 0 {
      var w := Width(n, k - 1);
      assert bits[..n + w][..n] == bits[..n] && bits[..n + w][n..] == bits[n..][..w];
      ReadPrefix(bits[n..], n, k - 1);
    }
  }

  lemma {:induction false} AvailableIs(bits: nat, n: nat, count: nat, k: nat)
    requires k <= count && Width(n, k) <= bits
    requires k < count ==> bits < Width(n, k + 1)
    ensures Available(bits, n, count) == k
    ensures Width(n, count) <= bits <==> k == count
    decreases count
  {
    if k < count {
      WidthAdd(n, k + 1, count - k - 1);
      AvailableIs(bits, n, count - 1, k);
    }
  }

  /** The bit reader: bit by bit, most significant first. */
  method ReadBits(input: seq<Byte>, pos: nat, n: nat) returns (t: nat)
    requires pos + n <= 8 * |input|
    ensures t == Value(BytesToBits(input)[pos..pos + n])
  {
    hide BytesToBits, Value, ToBits;
    t := 0;
    ghost var bits := BytesToBits(input);
    ValueStep([], false);
    assert bits[pos..pos] == [];
    for i := 0 to n
      invariant t == Value(bits[pos..pos + i])
    {
      var k := pos + i;
      BytesToBitsAt(input, k / 8, k % 8);
      ValueStep(bits[pos..k], bits[k]);
      assert bits[pos..k + 1] == bits[pos..k] + [bits[k]];
      t := 2 * t + (if ToBits(input[k / 8], 8)[k % 8] then 1 else 0);
    }
  }
}
