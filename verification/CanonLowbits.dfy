/** The low-order bits of Canon samples: how the decompressor merges them, block by block, and when that is what
    putting two bits behind each sample means. */
module CanonLowbits {
  import opened Bits
  import opened CanonStream
  import opened CanonBlock

  const U16 := 0x1_0000

  /** Where the low-order bits start in a file that has them. */
  const LOW_START := 26

  /** Bit pair `r` of a byte, lowest pair first. */
  function Pair(c: Byte, r: nat): nat
    requires r < 4
  {
    (if r == 0 then c else if r == 1 then c / 4 else if r == 2 then c / 16 else c / 64) % 4
  }

  /** Two more bits behind a 16-bit sample. */
  function Appended(sample: nat, bits: nat): nat {
    (sample * 4) % U16 + bits
  }

  /** There is a byte for every four samples. */
  predicate Enough(samples: seq<nat>, low: seq<Byte>) {
    |samples| <= 4 * |low|
  }

  /** The bytes of a file from `pos` on. */
  function LowBytes(data: seq<Byte>, pos: nat, n: nat): (low: seq<Byte>)
    ensures |low| == n
  {
    seq<Byte>(n, j requires 0 <= j < n => ByteRead(data, pos + j))
  }

  lemma LowBytesPart(data: seq<Byte>, pos: nat, n: nat, at: nat, m: nat)
    requires at + m <= n
    ensures LowBytes(data, pos, n)[at..at + m] == LowBytes(data, pos + at, m)
  {
    hide ByteRead;
  }

  /** The four bit pairs of a byte are its base-4 digits, lowest first. */
  lemma PairsOfByte(c: Byte)
    ensures c == Pair(c, 0) + 4 * Pair(c, 1) + 16 * Pair(c, 2) + 64 * Pair(c, 3)
    ensures Pair(c, 0) < 4 && Pair(c, 1) < 4 && Pair(c, 2) < 4 && Pair(c, 3) < 4
  {
    var c1, c2, c3 := c / 4, c / 4 / 4, c / 4 / 4 / 4;
    assert c / 16 == c2 && c / 64 == c3 && c3 < 4;
  }

  /** What appending to each sample its own two bits gives. */
  function Intended(samples: seq<nat>, low: seq<Byte>): (r: seq<nat>)
    requires Enough(samples, low)
    ensures |r| == |samples|
  {
    seq<nat>(|samples|, i requires 0 <= i < |samples| => Appended(samples[i], Pair(low[i / 4], i % 4)))
  }

  /** The sample that follows in the same block, and 0 at the end of the block. */
  function Following(samples: seq<nat>, i: nat): nat {
    if i % BLOCK < BLOCK - 1 && i + 1 < |samples| then samples[i + 1] else 0
  }

  /** What the merge leaves: the bits go behind the sample that follows. */
  function Merged(samples: seq<nat>, low: seq<Byte>): (r: seq<nat>)
    requires Enough(samples, low)
    ensures |r| == |samples|
  {
    seq<nat>(|samples|, i requires 0 <= i < |samples| => Appended(Following(samples, i), Pair(low[i / 4], i % 4)))
  }

  lemma PlaceInBlock(b: nat, i: nat)
    requires i < BLOCK
    ensures (BLOCK * b + i) % BLOCK == i && (BLOCK * b + i) / 4 == 16 * b + i / 4 && (BLOCK * b + i) % 4 == i % 4
  {
    var x := 64 * b + i;
    assert 64 * (b - x / 64) == x % 64 - i;
    assert 4 * (16 * b + i / 4 - x / 4) == x % 4 - i % 4;
  }

  lemma FollowingInBlock(samples: seq<nat>, b: nat, i: nat)
    requires BLOCK * b + BLOCK <= |samples| && i < BLOCK
    ensures Following(samples, BLOCK * b + i) == Following(samples[BLOCK * b..BLOCK * b + BLOCK], i)
  {
    PlaceInBlock(b, i);
  }

  /** Merging the blocks one by one is merging all of them. */
  lemma MergedBlock(samples: seq<nat>, low: seq<Byte>, b: nat)
    requires Enough(samples, low) && BLOCK * b + BLOCK <= |samples|
    ensures 16 * b + 16 <= |low|
    ensures Merged(samples, low)[BLOCK * b..BLOCK * b + BLOCK]
         == Merged(samples[BLOCK * b..BLOCK * b + BLOCK], low[16 * b..16 * b + 16])
  {
    hide Appended, Pair, Following;
    var block, bytes := samples[BLOCK * b..BLOCK * b + BLOCK], low[16 * b..16 * b + 16];
    forall i | 0 <= i < BLOCK
      ensures Merged(samples, low)[BLOCK * b + i] == Merged(block, bytes)[i]
    {
      PlaceInBlock(b, i);
      FollowingInBlock(samples, b, i);
    }
  }

  /** The merge of one block in place, reading each following sample before it is overwritten. */
  method MergeLowbits(outbuf: array<nat>, data: seq<Byte>, pos: nat)
    requires outbuf.Length == BLOCK
    modifies outbuf
    ensures outbuf[..] == Merged(old(outbuf[..]), LowBytes(data, pos, BLOCK / 4))
  {
    hide Appended, Pair, ByteRead;
    ghost var low := LowBytes(data, pos, BLOCK / 4);
    var i := 0;
    for j := 0 to BLOCK / 4
      invariant i == 4 * j
      invariant forall k :: 0 <= k < i ==> outbuf[k] == Merged(old(outbuf[..]), low)[k]
      invariant forall k :: i <= k < BLOCK ==> outbuf[k] == old(outbuf[k])
    {
      var c := ByteRead(data, pos + j);
      assert c == low[j];
      for r := 0 to 4
        invariant i == 4 * j + r
        invariant forall k :: 0 <= k < i ==> outbuf[k] == Merged(old(outbuf[..]), low)[k]
        invariant forall k :: i <= k < BLOCK ==> outbuf[k] == old(outbuf[k])
      {
        assert i / 4 == j && i % 4 == r;
        var next := if i < BLOCK - 1 then outbuf[i + 1] else 0;
        assert next == Following(old(outbuf[..]), i);
        outbuf[i] := Appended(next, Pair(c, r));
        i := i + 1;
      }
    }
  }

  lemma AppendedIs(a: nat, bits: nat)
    ensures Appended(a, bits) == a % 0x4000 * 4 + bits
  {
    var x := a / 0x4000;
    assert a * 4 == U16 * x + a % 0x4000 * 4;
  }

  lemma AppendedEqualIff(a: nat, b: nat, bits: nat)
    ensures Appended(a, bits) == Appended(b, bits) <==> a % 0x4000 == b % 0x4000
  {
    hide Appended;
    AppendedIs(a, bits);
    AppendedIs(b, bits);
  }

  /** A merged sample: its low two bits are those of its own byte pair, the others the low fourteen of the sample that
      follows in its block of 64. */
  lemma MergedAt(samples: seq<nat>, low: seq<Byte>, i: nat)
    requires |samples| <= 4 * |low| && i < |samples|
    ensures Merged(samples, low)[i] % 4 == Pair(low[i / 4], i % 4)
    ensures Merged(samples, low)[i] / 4
         == (if i % 64 < 63 && i + 1 < |samples| then samples[i + 1] else 0) % 0x4000
  {
    hide Appended, Pair;
    PairsOfByte(low[i / 4]);
    AppendedIs(Following(samples, i), Pair(low[i / 4], i % 4));
  }

  /** When the merge is what was meant, each sample agrees with the one that follows; so all agree with the 0 behind
      the end of their block. */
  lemma {:induction false} ZeroFrom(samples: seq<nat>, low: seq<Byte>, i: nat)
    requires Enough(samples, low) && i < |samples|
    requires Merged(samples, low) == Intended(samples, low)
    ensures samples[i] % 0x4000 == 0
    decreases |samples| - i
  {
    hide Appended, Pair;
    assert Merged(samples, low)[i] == Intended(samples, low)[i];
    AppendedEqualIff(Following(samples, i), samples[i], Pair(low[i / 4], i % 4));
    if i % BLOCK < BLOCK - 1 && i + 1 < |samples| {
      ZeroFrom(samples, low, i + 1);
    }
  }

  lemma ZeroFollows(samples: seq<nat>, i: nat)
    requires forall k :: 0 <= k < |samples| ==> samples[k] % 0x4000 == 0
    ensures Following(samples, i) % 0x4000 == 0
  {
  }

  lemma EqualWhenZero(samples: seq<nat>, low: seq<Byte>)
    requires Enough(samples, low)
    requires forall i :: 0 <= i < |samples| ==> samples[i] % 0x4000 == 0
    ensures Merged(samples, low) == Intended(samples, low)
  {
    hide Appended, Pair, Following;
    forall i | 0 <= i < |samples|
      ensures Merged(samples, low)[i] == Intended(samples, low)[i]
    {
      ZeroFollows(samples, i);
      AppendedEqualIff(Following(samples, i), samples[i], Pair(low[i / 4], i % 4));
    }
  }

  /** The merge is what was meant exactly when all samples are 0 in their low fourteen bits; of images of 10-bit
      samples, for the all-zero one alone. */
  lemma MergedIsIntendedIff(samples: seq<nat>, low: seq<Byte>)
    requires Enough(samples, low)
    ensures Merged(samples, low) == Intended(samples, low)
       <==> forall i :: 0 <= i < |samples| ==> samples[i] % 0x4000 == 0
  {
    hide Merged, Intended;
    if Merged(samples, low) == Intended(samples, low) {
      forall i | 0 <= i < |samples|
        ensures samples[i] % 0x4000 == 0
      {
        ZeroFrom(samples, low, i);
      }
    }
    if forall i :: 0 <= i < |samples| ==> samples[i] % 0x4000 == 0 {
      EqualWhenZero(samples, low);
    }
  }

  /** A block of ones without low-order bits: the last one is lost. */
  lemma LastSampleLost(low: seq<Byte>)
    requires |low| == BLOCK / 4 && forall j :: 0 <= j < |low| ==> low[j] == 0
    ensures var ones := seq<nat>(BLOCK, i => 1);
            && Intended(ones, low)[BLOCK - 1] == 4 && Merged(ones, low)[BLOCK - 1] == 0
  {
    hide Appended, Following;
    var ones := seq<nat>(BLOCK, i => 1);
    EndOfBlock(ones);
    AppendedIs(0, 0);
    AppendedIs(1, 0);
    assert low[63 / 4] == 0;
  }

  lemma EndOfBlock(samples: seq<nat>)
    requires |samples| == BLOCK
    ensures Following(samples, BLOCK - 1) == 0
  {
  }
}
