/** The decompressor as a whole: its loops, what they compute, and the encoder they invert. */
module CanonDecoder {
  import opened Bits
  import opened CanonStream
  import opened CanonHuffman
  import opened CanonDecodeTable
  import opened CanonBlock
  import opened CanonPredictor
  import opened CanonLowbits

  // ----- what is decoded

  /** Where the code of block `b` starts. */
  function BlockStart(tb: Tables, s: Stream, b: nat): nat
    requires |tb.first| >= 16 && |tb.second| >= 16
  {
    if b == 0 then 0 else DecodeBlock(tb, s, BlockStart(tb, s, b - 1)).1
  }

  /** The entries of the first `n` blocks. */
  function Entries(tb: Tables, s: Stream, n: nat): (entries: seq<int>)
    requires |tb.first| >= 16 && |tb.second| >= 16
    ensures |entries| == BLOCK * n
  {
    if n == 0 then [] else Entries(tb, s, n - 1) + DecodeBlock(tb, s, BlockStart(tb, s, n - 1)).0
  }

  /** Whole blocks are decoded until the frame is covered. */
  function BlockCount(width: nat, height: nat): nat {
    (width * height + BLOCK - 1) / BLOCK
  }

  lemma {:induction false} EntriesOfBlock(tb: Tables, s: Stream, n: nat, b: nat)
    requires |tb.first| >= 16 && |tb.second| >= 16
    requires b < n
    ensures BLOCK * b + BLOCK <= |Entries(tb, s, n)|
    ensures Entries(tb, s, n)[BLOCK * b..BLOCK * b + BLOCK] == DecodeBlock(tb, s, BlockStart(tb, s, b)).0
  {
    hide DecodeBlock, BlockStart;
    if b < n - 1 {
      EntriesOfBlock(tb, s, n - 1, b);
    }
  }

  // ----- the encoder and the round trip

  function BlockOf(entries: seq<int>, b: nat): (block: seq<int>)
    requires BLOCK * b + BLOCK <= |entries|
    ensures |block| == BLOCK
  {
    entries[BLOCK * b..BLOCK * b + BLOCK]
  }

  ghost predicate AllEncodable(tb: Tables, entries: seq<int>)
    requires ValidTables(tb)
  {
    forall b: nat :: BLOCK * b + BLOCK <= |entries| ==> Encodable(tb, BlockOf(entries, b), 0)
  }

  /** The codes of the first `n` blocks. */
  ghost function EncodeBlocks(tb: Tables, entries: seq<int>, n: nat): seq<bool>
    requires ValidTables(tb) && AllEncodable(tb, entries)
    requires BLOCK * n <= |entries|
  {
    if n == 0 then [] else EncodeBlocks(tb, entries, n - 1) + EncodeBlock(tb, BlockOf(entries, n - 1))
  }

  lemma {:induction false} BlocksRoundTrip(tb: Tables, entries: seq<int>, n: nat, s: Stream)
    requires ValidTables(tb) && AllEncodable(tb, entries)
    requires BLOCK * n <= |entries|
    requires Carries(s, 0, EncodeBlocks(tb, entries, n))
    ensures BlockStart(tb, s, n) == |EncodeBlocks(tb, entries, n)|
    ensures Entries(tb, s, n) == entries[..BLOCK * n]
  {
    hide ValidTables, Encodable, DecodeBlock, EncodeBlock, Carries;
    if n > 0 {
      var block, before := BlockOf(entries, n - 1), EncodeBlocks(tb, entries, n - 1);
      CarriesSplit(s, 0, before, EncodeBlock(tb, block));
      BlocksRoundTrip(tb, entries, n - 1, s);
      BlockRoundTrip(tb, block, s, |before|);
      assert entries[..BLOCK * n] == entries[..BLOCK * (n - 1)] + block;
    }
  }

  /** The bits of an image: its entries, block by block. */
  ghost function EncodeImage(tb: Tables, samples: seq<int>, width: nat): seq<bool>
    requires ValidTables(tb) && width > 0 && |samples| % BLOCK == 0
    requires AllEncodable(tb, ImageEntries(samples, width))
  {
    EncodeBlocks(tb, ImageEntries(samples, width), |samples| / BLOCK)
  }

  /** Wherever the stuffed bytes of an encoded image lie in a file, decoding there gives the image back. */
  lemma ImageRoundTrip(tb: Tables, samples: seq<int>, width: nat,
                       prefix: seq<Byte>, bytes: seq<Byte>, suffix: seq<Byte>)
    requires ValidTables(tb) && width > 0 && |samples| % BLOCK == 0
    requires forall p :: 0 <= p < |samples| ==> 0 <= samples[p] < 0x1_0000
    requires AllEncodable(tb, ImageEntries(samples, width))
    requires EncodeImage(tb, samples, width) <= BytesToBits(bytes)
    ensures var s := DestuffedBits(prefix + Stuff(bytes) + suffix, |prefix|);
            DecodedImage(Entries(tb, s, |samples| / BLOCK), width) == samples
  {
    hide ValidTables, AllEncodable, EncodeBlocks, Carries, DecodedImage, Entries, DestuffedBits, BytesToBits, Stuff;
    hide ImageEntries;
    var s, n := DestuffedBits(prefix + Stuff(bytes) + suffix, |prefix|), |samples| / BLOCK;
    var bits, entries := EncodeImage(tb, samples, width), ImageEntries(samples, width);
    StuffedFileCarriesBits(prefix, bytes, suffix);
    assert BytesToBits(bytes) == bits + BytesToBits(bytes)[|bits|..];
    CarriesSplit(s, 0, bits, BytesToBits(bytes)[|bits|..]);
    BlocksRoundTrip(tb, entries, n, s);
    assert entries[..BLOCK * n] == entries;
    PredictorRoundTrip(samples, width);
  }

  // ----- the loops

  /** `table` holds the decode tree of `source`, from its first node on. */
  ghost predicate Holds(table: DecodeTable, source: seq<Byte>)
    requires |source| >= 16
    reads table.nodes
  {
    Stored(table.nodes[..], 0, DecodeTree(SourceLengths(source)), source[16..])
  }

  lemma OneBit(s: Stream, off: nat)
    ensures Value(Window(s, off, 1)) == if s(off) then 1 else 0
  {
    assert Window(s, off, 1) == [s(off)];
    assert [s(off)][..0] == [];
  }

  /** What node `d` of a stored tree shows, and what its branch for the next bit leads to. */
  lemma AtNode(nodes: seq<Node>, d: nat, t: Tree, source: seq<Byte>, s: Stream, off: nat)
    requires |source| >= 16 && Stored(nodes, d, t, source[16..])
    ensures d < |nodes|
    ensures nodes[d].branch0 != 0 <==> t.Fork?
    ensures !t.Fork? ==> nodes[d].leaf == SymbolOf(source, t) && Walk(t, s, off) == (t, off)
    ensures t.Fork? ==>
              var d', t' := if s(off) then nodes[d].branch1 else nodes[d].branch0, if s(off) then t.one else t.zero;
              Stored(nodes, d', t', source[16..]) && Walk(t, s, off) == Walk(t', s, off + 1)
  {
    hide Stored, Nodes;
    StoredCases(nodes, d, t, source[16..]);
    NodesPositive(nodes, d, t, source[16..]);
  }

  lemma NodesPositive(nodes: seq<Node>, d: nat, t: Tree, symbols: seq<Byte>)
    requires Stored(nodes, d, t, symbols)
    ensures d < |nodes|
  {
  }

  /** Walks the stored tree bit by bit down to a node without branches. */
  method ReadLeaf(table: DecodeTable, ghost source: seq<Byte>, buffer: BitBuffer) returns (leaf: Byte)
    requires |source| >= 16 && Holds(table, source)
    requires buffer.Valid()
    modifies buffer
    ensures buffer.Valid() && buffer.start == old(buffer.start) && 0 <= old(buffer.Consumed()) <= buffer.Consumed()
    ensures (leaf, buffer.Consumed()) == ReadSymbol(source, buffer.Source(), old(buffer.Consumed()))
  {
    hide Stored, SourceLengths, DecodeTree, CodeLengths, Window, Value, Walk, SymbolOf, DestuffedBits, Pow2, Mod;
    ghost var s, nodes := buffer.Source(), table.nodes[..];
    ghost var t := DecodeTree(SourceLengths(source));
    var dindex: nat := 0;
    AtNode(nodes, dindex, t, source, s, buffer.Consumed());
    while table.nodes[dindex].branch0 != 0
      invariant buffer.Valid() && buffer.start == old(buffer.start) && old(buffer.Consumed()) <= buffer.Consumed()
      invariant Walk(t, s, buffer.Consumed()) == Walk(DecodeTree(SourceLengths(source)), s, old(buffer.Consumed()))
      invariant dindex < table.nodes.Length && Stored(nodes, dindex, t, source[16..])
      decreases t
    {
      AtNode(nodes, dindex, t, source, s, buffer.Consumed());
      OneBit(s, buffer.Consumed());
      t := if s(buffer.Consumed()) then t.one else t.zero;
      var bit := buffer.GetBits(1);
      dindex := if bit == 0 then table.nodes[dindex].branch0 else table.nodes[dindex].branch1;
      AtNode(nodes, dindex, t, source, s, buffer.Consumed());
    }
    AtNode(nodes, dindex, t, source, s, buffer.Consumed());
    leaf := table.nodes[dindex].leaf;
  }

  /** One turn of the token loop, as `DecodeEntries` describes it. */
  lemma TokenLoopTurn(tb: Tables, s: Stream, off: nat, i: nat, buf: seq<int>)
    requires |tb.first| >= 16 && |tb.second| >= 16 && |buf| == BLOCK
    ensures i >= BLOCK ==> DecodeEntries(tb, s, off, i, buf) == (buf, off)
    ensures i < BLOCK ==>
              var (leaf, next) := ReadSymbol(Source(tb, i), s, off);
              var j, len := i + leaf / 16, leaf % 16;
              && (leaf == END_OF_BLOCK && i != 0 ==> DecodeEntries(tb, s, off, i, buf) == (buf, next))
              && (leaf == SKIP ==> DecodeEntries(tb, s, off, i, buf) == DecodeEntries(tb, s, next, i + 1, buf))
              && (leaf != SKIP && (leaf == END_OF_BLOCK ==> i == 0) && len == 0 ==>
                    DecodeEntries(tb, s, off, i, buf) == DecodeEntries(tb, s, next, j + 1, buf))
              && (leaf != SKIP && (leaf == END_OF_BLOCK ==> i == 0) && len != 0 ==>
                    DecodeEntries(tb, s, off, i, buf)
                    == DecodeEntries(tb, s, next + len, j + 1,
                                     if j < BLOCK then buf[j := Extend(Value(Window(s, next, len)), len)] else buf))
  {
    hide ReadSymbol, Window, Value, Extend;
  }

  /** The token loop: fills the cleared difference buffer from one block of code. */
  method DecodeTokens(first: DecodeTable, second: DecodeTable, ghost tb: Tables, buffer: BitBuffer, diffbuf: array<int>)
    requires |tb.first| >= 16 && |tb.second| >= 16
    requires Holds(first, tb.first) && Holds(second, tb.second)
    requires buffer.Valid() && buffer.Consumed() >= 0
    requires diffbuf.Length == BLOCK
    modifies buffer, diffbuf
    ensures buffer.Valid() && buffer.start == old(buffer.start) && buffer.Consumed() >= 0
    ensures (diffbuf[..], buffer.Consumed()) == DecodeBlock(tb, buffer.Source(), old(buffer.Consumed()))
  {
    hide Holds, DecodeEntries, ReadSymbol, Extend, Window, Value, DestuffedBits, Pow2, Mod, BitBuffer.Valid;
    forall i | 0 <= i < BLOCK {
      diffbuf[i] := 0;
    }
    assert diffbuf[..] == ZeroBlock();
    ghost var s, source := buffer.Source(), tb.first;
    var decode := first;
    var i := 0;
    while i < BLOCK
      invariant 0 <= i && decode == (if i == 0 then first else second)
      invariant buffer.Valid() && buffer.start == old(buffer.start) && buffer.Consumed() >= 0
      invariant DecodeEntries(tb, s, buffer.Consumed(), i, diffbuf[..]) == DecodeBlock(tb, s, old(buffer.Consumed()))
    {
      TokenLoopTurn(tb, s, buffer.Consumed(), i, diffbuf[..]);
      var leaf := ReadLeaf(decode, Source(tb, i), buffer);
      decode := second;
      if leaf == END_OF_BLOCK && i != 0 {
        return;
      }
      if leaf == SKIP {
        i := i + 1;
        continue;
      }
      i := i + leaf / 16;
      var len := leaf % 16;
      if len == 0 {
        i := i + 1;
        continue;
      }
      var v := buffer.GetBits(len);
      var diff := Extend(v, len);
      if i < BLOCK {
        diffbuf[i] := diff;
      }
      i := i + 1;
    }
    TokenLoopTurn(tb, s, buffer.Consumed(), i, diffbuf[..]);
  }

  function CarriedBlock(entries: seq<int>, b: nat): seq<int>
    requires BLOCK * b + BLOCK <= |entries|
  {
    seq(BLOCK, i requires 0 <= i < BLOCK => CarriedEntry(entries, BLOCK * b + i))
  }

  /** Adding the carry to the first entry of a block gives the block's carried entries and the next carry. */
  lemma CarryIntoBlock(entries: seq<int>, b: nat, carry: int)
    requires BLOCK * b + BLOCK <= |entries|
    requires carry == if b == 0 then 0 else Carry(entries, b - 1)
    ensures BlockOf(entries, b)[0] + carry == Carry(entries, b)
    ensures BlockOf(entries, b)[0 := Carry(entries, b)] == CarriedBlock(entries, b)
  {
    var block := BlockOf(entries, b)[0 := Carry(entries, b)];
    forall i | 0 <= i < |block|
      ensures block[i] == CarriedBlock(entries, b)[i]
    {
      assert (BLOCK * b + i) / BLOCK == b && (BLOCK * b + i) % BLOCK == i;
      assert CarriedBlock(entries, b)[i] == CarriedEntry(entries, BLOCK * b + i);
    }
  }

  /** The sample loop: predicts the samples of block `b` from the bases, which it keeps up to date. */
  method PredictBlock(ghost entries: seq<int>, ghost b: nat, width: nat, column0: nat, diffbuf: array<int>,
                      base: array<int>, outbuf: array<nat>) returns (column: nat)
    requires width > 0 && BLOCK * b + BLOCK <= |entries| && column0 == BLOCK * b
    requires diffbuf.Length == outbuf.Length == BLOCK && base.Length == 2 && base != diffbuf
    requires diffbuf[..] == CarriedBlock(entries, b)
    requires BasesAt(entries, width, BLOCK * b, base[..])
    modifies base, outbuf
    ensures column == BLOCK * b + BLOCK
    ensures BasesAt(entries, width, BLOCK * b + BLOCK, base[..])
    ensures outbuf[..] == DecodedImage(entries, width)[BLOCK * b..BLOCK * b + BLOCK]
  {
    hide BasesAt, CarriedEntry, Sample, Mod;
    column := column0;
    for i := 0 to BLOCK
      invariant column == BLOCK * b + i
      invariant BasesAt(entries, width, column, base[..])
      invariant forall k :: 0 <= k < i ==> outbuf[k] == DecodedImage(entries, width)[BLOCK * b + k]
    {
      BasesStep(entries, width, column, base[..]);
      ghost var before := base[..];
      if Mod(column, width) == 0 {
        base[0], base[1] := MIDDLE, MIDDLE;
      }
      assert base[..] == if Mod(column, width) == 0 then [MIDDLE, MIDDLE] else before;
      assert column % 2 == i % 2;
      column := column + 1;
      base[i % 2] := base[i % 2] + diffbuf[i];
      outbuf[i] := base[i % 2] % 0x1_0000;
    }
  }

  /** The tree of a specification fits an array of `size` nodes, and there is a symbol for each of its leaves. */
  ghost predicate Fits(source: seq<Byte>, size: nat)
    requires |source| >= 16
  {
    && Nodes(DecodeTree(SourceLengths(source))) <= size
    && Placed(SourceLengths(source)) <= |source| - 16
  }

  method BuildTable(source: seq<Byte>, size: nat) returns (table: DecodeTable)
    requires |source| >= 16 && Fits(source, size)
    ensures fresh(table) && fresh(table.nodes) && Holds(table, source)
  {
    table := new DecodeTable(size);
    table.MakeDecoder(0, source);
  }

  lemma BlockWithinFrame(width: nat, height: nat, b: nat)
    requires BLOCK * b < width * height
    ensures width > 0 && b < BlockCount(width, height)
  {
    assert width == 0 ==> width * height == 0;
  }

  lemma FrameCovered(width: nat, height: nat, b: nat)
    requires BLOCK * b >= width * height && b <= BlockCount(width, height)
    ensures b == BlockCount(width, height)
  {
  }

  lemma NextSlice(image: seq<nat>, out: seq<nat>, block: seq<nat>, b: nat)
    requires BLOCK * b + BLOCK <= |image|
    requires out == image[..BLOCK * b] && block == image[BLOCK * b..BLOCK * b + BLOCK]
    ensures out + block == image[..BLOCK * b + BLOCK]
  {
  }

  /** One block: tokens, carry, samples. */
  method DecompressBlock(firstDecode: DecodeTable, secondDecode: DecodeTable, ghost tb: Tables, buffer: BitBuffer,
                         ghost entries: seq<int>, ghost b: nat, width: nat, column0: nat, carry0: int,
                         diffbuf: array<int>, base: array<int>, outbuf: array<nat>)
    returns (column: nat, carry: int)
    requires |tb.first| >= 16 && |tb.second| >= 16
    requires Holds(firstDecode, tb.first) && Holds(secondDecode, tb.second)
    requires buffer.Valid() && buffer.Consumed() >= 0
    requires width > 0 && BLOCK * b + BLOCK <= |entries| && column0 == BLOCK * b
    requires BlockOf(entries, b) == DecodeBlock(tb, buffer.Source(), buffer.Consumed()).0
    requires carry0 == if b == 0 then 0 else Carry(entries, b - 1)
    requires diffbuf.Length == outbuf.Length == BLOCK && base.Length == 2 && base != diffbuf
    requires BasesAt(entries, width, BLOCK * b, base[..])
    modifies buffer, diffbuf, base, outbuf
    ensures buffer.Valid() && buffer.start == old(buffer.start)
    ensures buffer.Consumed() == DecodeBlock(tb, buffer.Source(), old(buffer.Consumed())).1
    ensures column == BLOCK * b + BLOCK
    ensures carry == Carry(entries, b)
    ensures BasesAt(entries, width, BLOCK * b + BLOCK, base[..])
    ensures outbuf[..] == DecodedImage(entries, width)[BLOCK * b..BLOCK * b + BLOCK]
  {
    hide Holds, BitBuffer.Valid, BasesAt, DecodeBlock, Carry, CarriedBlock, DestuffedBits;
    DecodeTokens(firstDecode, secondDecode, tb, buffer, diffbuf);
    CarryIntoBlock(entries, b, carry0);
    ghost var block := diffbuf[..];
    diffbuf[0] := diffbuf[0] + carry0;
    assert diffbuf[..] == block[0 := Carry(entries, b)];
    carry := diffbuf[0];
    column := PredictBlock(entries, b, width, column0, diffbuf, base, outbuf);
  }

  /** Where the code starts in a file, behind the low-order bits if it has them. */
  function CodeStart(lowbits: bool, width: nat, height: nat): nat {
    540 + if lowbits then height * width / 4 else 0
  }

  /** The decoded image as it is written out: with low-order bits merged in, or as it is. */
  function Written(image: seq<nat>, data: seq<Byte>, lowbits: bool): (out: seq<nat>)
    ensures |out| == |image|
  {
    if lowbits then Merged(image, LowBytes(data, LOW_START, (|image| + 3) / 4)) else image
  }

  /** The code starts at byte 540 of a file without low-order bits, and as many bytes later as the low-order bits of the
      frame take in a file with them. Those start at byte 26, and what is merged lies before the code. */
  lemma FileLayout(width: nat, height: nat)
    ensures CodeStart(false, width, height) == 540 && CodeStart(true, width, height) == 540 + width * height / 4
    ensures LOW_START == 26 && 26 + 16 * BlockCount(width, height) <= CodeStart(true, width, height)
    ensures 64 * BlockCount(width, height) - 64 < width * height <= 64 * BlockCount(width, height)
  {
    assert height * width == width * height;
    LayoutOf(width * height);
  }

  lemma LayoutOf(area: nat)
    ensures 26 + 16 * ((area + 63) / 64) <= 540 + area / 4
    ensures 64 * ((area + 63) / 64) - 64 < area <= 64 * ((area + 63) / 64)
  {
  }

  /** What is written out, sample by sample. */
  lemma WrittenAt(image: seq<nat>, data: seq<Byte>, p: nat)
    requires p < |image|
    ensures Written(image, data, false) == image
    ensures var c := if 26 + p / 4 < |data| then data[26 + p / 4] else 0xff;
            Written(image, data, true)[p] % 4 == Pair(c, p % 4)
    ensures Written(image, data, true)[p] / 4
         == (if p % 64 < 63 && p + 1 < |image| then image[p + 1] else 0) % 0x4000
  {
    hide Merged, Pair;
    MergedAt(image, LowBytes(data, LOW_START, (|image| + 3) / 4), p);
  }

  /** The low-order bits of block `b` are merged into it as they are into the image. */
  lemma WrittenBlock(image: seq<nat>, data: seq<Byte>, b: nat)
    requires BLOCK * b + BLOCK <= |image|
    ensures Merged(image[BLOCK * b..BLOCK * b + BLOCK], LowBytes(data, LOW_START + 16 * b, BLOCK / 4))
         == Written(image, data, true)[BLOCK * b..BLOCK * b + BLOCK]
  {
    hide Merged, LowBytes;
    var n := (|image| + 3) / 4;
    MergedBlock(image, LowBytes(data, LOW_START, n), b);
    LowBytesPart(data, LOW_START, n, 16 * b, 16);
  }

  /** The decompressor: tables, primed bit buffer, and whole blocks until the frame is covered. */
  method Decompress(data: seq<Byte>, lowbits: bool, first: seq<Byte>, second: seq<Byte>, width: nat, height: nat)
    returns (out: seq<nat>)
    requires |first| >= 16 && |second| >= 16
    requires Fits(first, 32) && Fits(second, 512)
    ensures |out| == BLOCK * BlockCount(width, height)
    ensures width > 0 ==>
              var s, n := DestuffedBits(data, CodeStart(lowbits, width, height)), BlockCount(width, height);
              out == Written(DecodedImage(Entries(Tables(first, second), s, n), width), data, lowbits)
  {
    hide Fits, Holds, BitBuffer.Valid, DestuffedBits, DecodedImage, Entries, BlockCount, CodeStart, Written;
    var offset := CodeStart(lowbits, width, height);
    var firstDecode := BuildTable(first, 32);
    var secondDecode := BuildTable(second, 512);
    var buffer := new BitBuffer(data, offset);
    var _ := buffer.GetBits(-1);
    StartOfFrame(Tables(first, second), buffer.Source(), width, height);
    if width == 0 {
      return [];
    }
    out := WriteBlocks(firstDecode, secondDecode, Tables(first, second), buffer, data, lowbits, width, height);
  }

  lemma StartOfFrame(tb: Tables, s: Stream, width: nat, height: nat)
    requires |tb.first| >= 16 && |tb.second| >= 16
    ensures BlockStart(tb, s, 0) == 0
    ensures width == 0 ==> BlockCount(width, height) == 0
  {
    assert width == 0 ==> width * height == 0;
  }

  lemma NextBlockStart(tb: Tables, s: Stream, b: nat)
    requires |tb.first| >= 16 && |tb.second| >= 16
    ensures BlockStart(tb, s, b + 1) == DecodeBlock(tb, s, BlockStart(tb, s, b)).1
  {
    hide DecodeBlock;
  }

  /** The loop over the blocks of a frame, from the start of the code on. */
  method WriteBlocks(firstDecode: DecodeTable, secondDecode: DecodeTable, ghost tb: Tables, buffer: BitBuffer,
                     data: seq<Byte>, lowbits: bool, width: nat, height: nat) returns (out: seq<nat>)
    requires |tb.first| >= 16 && |tb.second| >= 16
    requires Holds(firstDecode, tb.first) && Holds(secondDecode, tb.second)
    requires buffer.Valid() && buffer.Consumed() == BlockStart(tb, buffer.Source(), 0) && width > 0
    modifies buffer
    ensures var entries := Entries(tb, old(buffer.Source()), BlockCount(width, height));
            out == Written(DecodedImage(entries, width), data, lowbits)
  {
    hide Holds, BitBuffer.Valid, DestuffedBits, DecodeBlock, DecodedImage, Carry, BasesAt, BlockCount, BlockStart;
    hide Written;
    ghost var s, n, start := buffer.Source(), BlockCount(width, height), buffer.start;
    ghost var entries, b: nat := Entries(tb, s, n), 0;
    ghost var image := DecodedImage(entries, width);
    ghost var result := Written(image, data, lowbits);
    var diffbuf, outbuf := new int[BLOCK], new nat[BLOCK];
    var base := new int[2];
    var column, carry := 0, 0;
    out := [];
    StartOfImage(entries, width, base[..]);
    while column < width * height
      invariant column == BLOCK * b && b <= n
      invariant buffer.Valid() && buffer.start == start && buffer.Consumed() == BlockStart(tb, s, b)
      invariant carry == if b == 0 then 0 else Carry(entries, b - 1)
      invariant BasesAt(entries, width, column, base[..])
      invariant out == result[..column]
      decreases n - b
    {
      BlockWithinFrame(width, height, b);
      EntriesOfBlock(tb, s, n, b);
      NextBlockStart(tb, s, b);
      column, carry := DecompressBlock(firstDecode, secondDecode, tb, buffer, entries, b, width, column, carry,
                                       diffbuf, base, outbuf);
      FinishBlock(image, b, data, lowbits, column, outbuf);
      NextSlice(result, out, outbuf[..], b);
      out := out + outbuf[..];
      b := b + 1;
    }
    FrameCovered(width, height, b);
  }

  /** Merges the low-order bits of a block, if there are any. */
  method FinishBlock(ghost image: seq<nat>, ghost b: nat, data: seq<Byte>, lowbits: bool, column: nat,
                     outbuf: array<nat>)
    requires BLOCK * b + BLOCK <= |image|
    requires column == BLOCK * b + BLOCK && outbuf.Length == BLOCK
    requires outbuf[..] == image[BLOCK * b..BLOCK * b + BLOCK]
    modifies outbuf
    ensures outbuf[..] == Written(image, data, lowbits)[BLOCK * b..BLOCK * b + BLOCK]
  {
    hide Merged, LowBytes;
    if lowbits {
      assert (column - 64) / 4 == 16 * b;
      MergeLowbits(outbuf, data, (column - 64) / 4 + LOW_START);
      WrittenBlock(image, data, b);
    }
  }

  lemma StartOfImage(entries: seq<int>, width: nat, base: seq<int>)
    requires |base| == 2
    ensures width > 0 ==> BasesAt(entries, width, 0, base)
  {
  }
}
