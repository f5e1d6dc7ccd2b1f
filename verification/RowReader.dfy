/** Unpacking an image row by row from a reader: block sizes, the loop, and what whole images come out as. */
module RowReader {
  import opened Bits
  import opened CanonStream
  import opened Unpackers

  datatype Endian = Little | Big | Unset

  /** A reader: `pos` is where the next read starts. */
  class Reader {
    const data: seq<Byte>
    var pos: nat

    constructor (data: seq<Byte>)
      ensures this.data == data && pos == 0
    {
      this.data := data;
      pos := 0;
    }

    /** Reads exactly `n` bytes or fails. */
    method ReadExact(n: nat) returns (r: Result<seq<Byte>>)
      modifies this
      ensures pos == old(pos) + (if r.Ok? then n else 0)
      ensures r == if old(pos) + n <= |data| then Ok(data[old(pos)..old(pos) + n]) else Err(UnexpectedEnd)
    {
      if pos + n > |data| {
        return Err(UnexpectedEnd);
      }
      r := Ok(data[pos..pos + n]);
      pos := pos + n;
    }
  }

  // ----- one row

  /** Whether rows of this compression carry a padding byte behind every ten samples. */
  predicate RowPads(compression: Compression) {
    compression == NikonPack || compression == Olympus || compression == PanasonicRaw1
  }

  predicate KnownDepth(bpc: nat) {
    bpc == 10 || bpc == 12 || bpc == 14
  }

  /** The bytes of one row. */
  function BlockSize(width: nat, bpc: nat, compression: Compression): nat
    requires KnownDepth(bpc)
  {
    match bpc
    case 10 => width / 4 * 5
    case 12 => if RowPads(compression) then width / 2 * 3 + width / 10 else width / 2 * 3
    case _ => width / 4 * 7
  }

  /** How 12-bit rows are read: byte order and padding, or nothing where the code gives up. */
  datatype Order = Order(big: bool, pad: bool) | NoOrder

  function RowOrder(compression: Compression, endian: Endian): Order {
    match compression
    case NikonPack => Order(true, true)
    case PentaxPack => Order(true, false)
    case NoCompression => if endian == Little then Order(false, false) else if endian == Big then Order(true, false) else NoOrder
    case Olympus => Order(false, true)
    case PanasonicRaw1 => Order(false, true)
    case OtherCompression => NoOrder
  }

  /** The samples of one row, or why it has none. */
  function RowSamples(block: seq<Byte>, width: nat, bpc: nat, compression: Compression, endian: Endian): Result<seq<nat>>
    requires KnownDepth(bpc)
  {
    if bpc == 12 then
      match RowOrder(compression, endian)
      case NoOrder => Err(Unreachable)
      case Order(big, pad) => if Sized(pad, |block|) then Ok(Unpacked(big, pad, block)) else Err(Decompression)
    else if Width(bpc, width) <= 8 * |block| then Ok(ReadAll(BytesToBits(block), bpc, width))
    else Err(NotEnoughBits)
  }

  method UnpackRow(block: seq<Byte>, width: nat, bpc: nat, compression: Compression, endian: Endian, out: Samples)
    returns (r: Result<nat>)
    requires KnownDepth(bpc)
    modifies out
    ensures var row := RowSamples(block, width, bpc, compression, endian);
            && (row.Ok? ==> r == Ok(|row.value|) && out.data == old(out.data) + row.value)
            && (row.Err? ==> r == Err(row.error))
  {
    hide Unpacked, ReadAll, BytesToBits, Width;
    if bpc == 12 {
      match compression
      case NikonPack =>
        r := UnpackBe12to16(block, out, compression);
      case PentaxPack =>
        r := UnpackBe12to16(block, out, compression);
      case NoCompression =>
        match endian {
          case Little => r := UnpackLe12to16(block, out, compression);
          case Big => r := UnpackBe12to16(block, out, compression);
          case Unset => r := Err(Unreachable);
        }
      case Olympus =>
        r := UnpackLe12to16(block, out, compression);
      case PanasonicRaw1 =>
        r := UnpackLe12to16(block, out, compression);
      case OtherCompression =>
        r := Err(Unreachable);
    } else {
      WidthIsProduct(bpc, width);
      AllAvailable(8 * |block|, bpc, width);
      r := UnpackBento16(block, bpc, width, out);
    }
  }

  lemma AllAvailable(bits: nat, n: nat, count: nat)
    ensures Width(n, count) <= bits ==> Available(bits, n, count) == count
  {
  }

  // ----- all rows

  function Min(a: nat, b: nat): nat {
    if a < b then a else b
  }

  /** How many blocks it takes to fetch `len` bytes. */
  function BlocksNeeded(len: nat, size: nat): (n: nat)
    requires size > 0
    ensures Width(size, n) >= len
    ensures n > 0 ==> Width(size, n - 1) < len
  {
    if len == 0 then 0 else if len <= size then 1 else 1 + BlocksNeeded(len - size, size)
  }

  /** The blocks read: as many as the byte count needs, but no more than there are rows. */
  function BlocksRead(byteLen: nat, size: nat, height: nat): nat {
    if size == 0 then 0 else BlocksNeeded(Min(byteLen, Width(size, height)), size)
  }

  /** The block count is the byte count divided by the block size, rounded up, and at most the height. */
  lemma BlocksReadIsCeiling(byteLen: nat, size: nat, height: nat)
    ensures BlocksRead(byteLen, size, height) <= height
    ensures size > 0 ==>
              var len := Min(byteLen, size * height);
              && size * BlocksRead(byteLen, size, height) >= len
              && (len > 0 ==> size * (BlocksRead(byteLen, size, height) - 1) < len)
    ensures size == 0 ==> BlocksRead(byteLen, size, height) == 0
  {
    hide Width, BlocksNeeded;
    var n := BlocksRead(byteLen, size, height);
    WidthIsProduct(size, height);
    WidthIsProduct(size, n);
    if n > 0 {
      WidthIsProduct(size, n - 1);
      if n > height {
        WidthMonotone(size, height, n - 1);
      }
    }
    NoWidth(size);
  }

  lemma NoWidth(size: nat)
    ensures Width(size, 0) == 0
  {
  }

  /** The samples of `n` rows from `pos` on, one after the other, or the first failure. */
  function Rows(data: seq<Byte>, pos: nat, n: nat, width: nat, bpc: nat, compression: Compression, endian: Endian)
    : (r: Result<seq<nat>>)
    requires KnownDepth(bpc)
  {
    var size := BlockSize(width, bpc, compression);
    if n == 0 then Ok([])
    else
      var before := Rows(data, pos, n - 1, width, bpc, compression, endian);
      var start := pos + Width(size, n - 1);
      if before.Err? then before
      else if start + size > |data| then Err(UnexpectedEnd)
      else
        var row := RowSamples(data[start..start + size], width, bpc, compression, endian);
        if row.Err? then row else Ok(before.value + row.value)
  }

  /** A failure in some row is the failure of the whole. */
  lemma {:induction false} RowsFail(data: seq<Byte>, pos: nat, k: nat, n: nat, width: nat, bpc: nat,
                                    compression: Compression, endian: Endian)
    requires KnownDepth(bpc) && k <= n
    requires Rows(data, pos, k, width, bpc, compression, endian).Err?
    ensures Rows(data, pos, n, width, bpc, compression, endian) == Rows(data, pos, k, width, bpc, compression, endian)
  {
    hide BlockSize, RowSamples;
    if k < n {
      RowsFail(data, pos, k, n - 1, width, bpc, compression, endian);
    }
  }

  /** One turn of the row loop: read row `k` and append its samples. */
  method FetchRow(reader: Reader, ghost pos0: nat, ghost k: nat, blockSize: nat, width: nat, bpc: nat,
                  compression: Compression, endian: Endian, out: Samples) returns (r: Result<nat>)
    requires KnownDepth(bpc) && blockSize == BlockSize(width, bpc, compression)
    requires reader.pos == pos0 + Width(blockSize, k)
    requires Rows(reader.data, pos0, k, width, bpc, compression, endian) == Ok(out.data)
    modifies reader, out
    ensures var rows := Rows(reader.data, pos0, k + 1, width, bpc, compression, endian);
            if r.Err? then rows == Err(r.error)
            else r.value == blockSize && reader.pos == pos0 + Width(blockSize, k + 1) && rows == Ok(out.data)
  {
    hide BlockSize, RowSamples, Width, Rows;
    RowStep(blockSize, k);
    NextRow(reader.data, pos0, k, width, bpc, compression, endian);
    var block := reader.ReadExact(blockSize);
    if block.Err? {
      return Err(block.error);
    }
    var row := UnpackRow(block.value, width, bpc, compression, endian, out);
    if row.Err? {
      return Err(row.error);
    }
    r := Ok(|block.value|);
  }

  /** The row loop: one block at a time until the byte count is fetched. */
  method UnpackFromReader(reader: Reader, width: nat, height: nat, bpc: nat, compression: Compression, byteLen: nat,
                          endian: Endian) returns (r: Result<seq<nat>>)
    modifies reader
    ensures bpc != 10 && bpc != 12 && bpc != 14 ==> r == Err(InvalidFormat) && reader.pos == old(reader.pos)
    ensures KnownDepth(bpc) ==>
              var size := BlockSize(width, bpc, compression);
              var n := BlocksRead(byteLen, size, height);
              && r == Rows(reader.data, old(reader.pos), n, width, bpc, compression, endian)
              && (r.Ok? ==> reader.pos == old(reader.pos) + Width(size, n))
  {
    hide BlockSize, RowSamples, BlocksNeeded, Width, Rows, BlocksRead;
    if !KnownDepth(bpc) {
      return Err(InvalidFormat);
    }
    var blockSize := BlockSize(width, bpc, compression);
    var out := new Samples();
    var fetched := 0;
    WidthIsProduct(blockSize, height);
    var len := Min(byteLen, blockSize * height);
    ghost var data, pos0, n, k: nat := reader.data, reader.pos, BlocksRead(byteLen, blockSize, height), 0;
    NoWidth(blockSize);
    NoRows(data, pos0, width, bpc, compression, endian);
    RowCount(blockSize, byteLen, height, k);
    while fetched < len
      invariant fetched == Width(blockSize, k) && k <= n && reader.pos == pos0 + fetched
      invariant Rows(data, pos0, k, width, bpc, compression, endian) == Ok(out.data)
      invariant fetched < len <==> k < n
      decreases n - k
    {
      RowStep(blockSize, k);
      RowCount(blockSize, byteLen, height, k + 1);
      var row := FetchRow(reader, pos0, k, blockSize, width, bpc, compression, endian, out);
      if row.Err? {
        RowsFail(data, pos0, k + 1, n, width, bpc, compression, endian);
        return Err(row.error);
      }
      fetched := fetched + row.value;
      k := k + 1;
    }
    r := Ok(out.data);
  }

  lemma NoRows(data: seq<Byte>, pos: nat, width: nat, bpc: nat, compression: Compression, endian: Endian)
    requires KnownDepth(bpc)
    ensures Rows(data, pos, 0, width, bpc, compression, endian) == Ok([])
  {
  }

  lemma RowStep(size: nat, k: nat)
    ensures Width(size, k + 1) == Width(size, k) + size
  {
  }

  lemma NeededCount(len: nat, size: nat, k: nat)
    requires size > 0 && k <= BlocksNeeded(len, size)
    ensures Width(size, k) < len <==> k < BlocksNeeded(len, size)
  {
    var n := BlocksNeeded(len, size);
    assert Width(size, n) >= len && (n > 0 ==> Width(size, n - 1) < len);
    if k < n {
      WidthMonotone(size, k, n - 1);
    }
  }

  lemma RowCount(size: nat, byteLen: nat, height: nat, k: nat)
    requires k <= BlocksRead(byteLen, size, height)
    ensures Width(size, k) < Min(byteLen, Width(size, height)) <==> k < BlocksRead(byteLen, size, height)
  {
    hide BlocksNeeded, Width;
    if size == 0 {
      NoBytes(height);
      NoBytes(0);
    } else {
      NeededCount(Min(byteLen, Width(size, height)), size, k);
    }
  }

  /** The rows up to one more, when those before it decode. */
  lemma NextRow(data: seq<Byte>, pos: nat, k: nat, width: nat, bpc: nat, compression: Compression, endian: Endian)
    requires KnownDepth(bpc) && Rows(data, pos, k, width, bpc, compression, endian).Ok?
    ensures var size := BlockSize(width, bpc, compression);
            var start := pos + Width(size, k);
            var next := Rows(data, pos, k + 1, width, bpc, compression, endian);
            if start + size > |data| then next == Err(UnexpectedEnd)
            else
              var row := RowSamples(data[start..start + size], width, bpc, compression, endian);
              if row.Err? then next == row
              else next == Ok(Rows(data, pos, k, width, bpc, compression, endian).value + row.value)
  {
    hide BlockSize, RowSamples, Width;
  }

  lemma {:induction false} NoBytes(k: nat)
    ensures Width(0, k) == 0
  {
    if k > 0 {
      NoBytes(k - 1);
    }
  }

  // ----- which widths decode

  /** Whether rows of this width decode at all. */
  predicate RowDecodes(width: nat, bpc: nat, compression: Compression, endian: Endian)
    requires KnownDepth(bpc)
  {
    if bpc != 12 then width % 4 == 0
    else
      match RowOrder(compression, endian)
      case NoOrder => false
      case Order(_, pad) => pad ==> width % 10 <= 1
  }

  lemma RowDecodesIff(block: seq<Byte>, width: nat, bpc: nat, compression: Compression, endian: Endian)
    requires KnownDepth(bpc) && |block| == BlockSize(width, bpc, compression)
    ensures RowSamples(block, width, bpc, compression, endian).Ok? <==> RowDecodes(width, bpc, compression, endian)
  {
    hide Unpacked, ReadAll, BytesToBits, Width;
    if bpc == 12 {
      PaddedRowSize(width);
      MultipleOf3(width / 2);
    } else {
      WidthIsProduct(bpc, width);
      BytesOfRowIff(width, bpc);
    }
  }

  lemma BytesOfRowIff(width: nat, bpc: nat)
    requires bpc == 10 || bpc == 14
    ensures bpc * width <= 8 * (if bpc == 10 then width / 4 * 5 else width / 4 * 7) <==> width % 4 == 0
  {
    assert width == 4 * (width / 4) + width % 4;
  }

  lemma PaddedRowSize(width: nat)
    ensures (width / 2 * 3 + width / 10) % 16 == 0 <==> width % 10 <= 1
  {
    var q, r := width / 10, width % 10;
    assert width / 2 == 5 * q + r / 2;
    var size := width / 2 * 3 + width / 10;
    assert size == 16 * q + r / 2 * 3;
    assert 16 * (q - size / 16) == size % 16 - r / 2 * 3;
  }

  /** With enough bytes, an image decodes exactly when no block is read or its rows decode. */
  lemma {:induction false} ImageDecodesIff(data: seq<Byte>, pos: nat, n: nat, width: nat, bpc: nat,
                                           compression: Compression, endian: Endian)
    requires KnownDepth(bpc)
    requires pos + Width(BlockSize(width, bpc, compression), n) <= |data|
    ensures Rows(data, pos, n, width, bpc, compression, endian).Ok?
       <==> n == 0 || RowDecodes(width, bpc, compression, endian)
  {
    hide BlockSize, RowSamples, RowDecodes;
    if n > 0 {
      var size := BlockSize(width, bpc, compression);
      var start := pos + Width(size, n - 1);
      ImageDecodesIff(data, pos, n - 1, width, bpc, compression, endian);
      RowDecodesIff(data[start..start + size], width, bpc, compression, endian);
    }
  }

  // ----- rows together are one flat unpacking

  /** The samples of a byte string unpacked in one go. */
  function Flat(bytes: seq<Byte>, count: nat, bpc: nat, order: Order): seq<nat> {
    if bpc != 12 then if Width(bpc, count) <= 8 * |bytes| then ReadAll(BytesToBits(bytes), bpc, count) else []
    else if order.Order? then Unpacked(order.big, order.pad, bytes)
    else []
  }

  /** Byte strings that end where a sample, a group of samples or a padding byte ends. */
  predicate WholeRows(len: nat, count: nat, bpc: nat, order: Order) {
    if bpc != 12 then Width(bpc, count) == 8 * len else order.Order? ==> Sized(order.pad, len)
  }

  lemma FlatConcat(a: seq<Byte>, b: seq<Byte>, j: nat, k: nat, bpc: nat, order: Order)
    requires WholeRows(|a|, j, bpc, order) && WholeRows(|b|, k, bpc, order)
    ensures WholeRows(|a + b|, j + k, bpc, order)
    ensures Flat(a + b, j + k, bpc, order) == Flat(a, j, bpc, order) + Flat(b, k, bpc, order)
  {
    hide Width, ReadAll, BytesToBits, Triples, Padded;
    if bpc != 12 {
      WidthAdd(bpc, j, k);
      BytesToBitsConcat(a, b);
      ReadAllConcat(BytesToBits(a), BytesToBits(b), bpc, j, k);
    } else if order.Order? {
      if order.pad {
        PaddedConcat(order.big, a, b);
      } else {
        TriplesConcat(order.big, a, b);
      }
    }
  }

  lemma RowIsFlat(block: seq<Byte>, width: nat, bpc: nat, compression: Compression, endian: Endian)
    requires KnownDepth(bpc) && |block| == BlockSize(width, bpc, compression)
    requires RowDecodes(width, bpc, compression, endian)
    ensures WholeRows(|block|, width, bpc, RowOrder(compression, endian))
    ensures RowSamples(block, width, bpc, compression, endian) == Ok(Flat(block, width, bpc, RowOrder(compression, endian)))
  {
    hide Width, ReadAll, BytesToBits, Unpacked, RowOrder, Sized, BlockSize, RowDecodes;
    DecodingRowIsWhole(width, bpc, compression, endian);
  }

  /** A row that decodes ends where a sample, a group or a padding byte ends. */
  lemma DecodingRowIsWhole(width: nat, bpc: nat, compression: Compression, endian: Endian)
    requires KnownDepth(bpc) && RowDecodes(width, bpc, compression, endian)
    ensures WholeRows(BlockSize(width, bpc, compression), width, bpc, RowOrder(compression, endian))
    ensures bpc == 12 ==> RowOrder(compression, endian).Order?
  {
    hide Width;
    if bpc == 12 {
      PaddedRowSize(width);
      MultipleOf3(width / 2);
    } else {
      WidthIsProduct(bpc, width);
      WholeBytes(width, bpc);
    }
  }

  lemma MultipleOf3(x: nat)
    ensures x * 3 % 3 == 0
  {
  }

  lemma WholeBytes(width: nat, bpc: nat)
    requires (bpc == 10 || bpc == 14) && width % 4 == 0
    ensures bpc * width == 8 * (if bpc == 10 then width / 4 * 5 else width / 4 * 7)
  {
    assert width == 4 * (width / 4);
  }

  lemma NothingFlat(bpc: nat, order: Order)
    ensures WholeRows(0, 0, bpc, order) && Flat([], 0, bpc, order) == []
  {
  }

  /** Decoding row by row gives what one flat unpacking of all bytes consumed gives. */
  lemma {:induction false} RowsAreFlat(data: seq<Byte>, pos: nat, n: nat, width: nat, bpc: nat,
                                       compression: Compression, endian: Endian)
    requires KnownDepth(bpc) && RowDecodes(width, bpc, compression, endian)
    requires pos + Width(BlockSize(width, bpc, compression), n) <= |data|
    ensures var len := Width(BlockSize(width, bpc, compression), n);
            && WholeRows(len, Width(width, n), bpc, RowOrder(compression, endian))
            && Rows(data, pos, n, width, bpc, compression, endian)
               == Ok(Flat(data[pos..pos + len], Width(width, n), bpc, RowOrder(compression, endian)))
  {
    hide BlockSize, RowSamples, RowDecodes, WholeRows, Flat, RowOrder, Width, Rows;
    var order := RowOrder(compression, endian);
    if n == 0 {
      NoWidth(BlockSize(width, bpc, compression));
      NoWidth(width);
      NoRows(data, pos, width, bpc, compression, endian);
      NothingFlat(bpc, order);
      assert data[pos..pos] == [];
    } else {
      var size := BlockSize(width, bpc, compression);
      RowStep(size, n - 1);
      RowStep(width, n - 1);
      var start := pos + Width(size, n - 1);
      var a, b := data[pos..start], data[start..start + size];
      RowsAreFlat(data, pos, n - 1, width, bpc, compression, endian);
      NextRow(data, pos, n - 1, width, bpc, compression, endian);
      RowIsFlat(b, width, bpc, compression, endian);
      FlatConcat(a, b, Width(width, n - 1), width, bpc, order);
      assert a + b == data[pos..start + size];
    }
  }

  // ----- what each compression means

  /** Rows of 12 bits that decode are one unpacking of the bytes read. */
  lemma TwelveBitRows(data: seq<Byte>, pos: nat, n: nat, width: nat, compression: Compression, endian: Endian)
    requires RowDecodes(width, 12, compression, endian)
    requires pos + Width(BlockSize(width, 12, compression), n) <= |data|
    ensures RowOrder(compression, endian).Order?
    ensures var order, len := RowOrder(compression, endian), Width(BlockSize(width, 12, compression), n);
            && Sized(order.pad, len)
            && Rows(data, pos, n, width, 12, compression, endian)
               == Ok(Unpacked(order.big, order.pad, data[pos..pos + len]))
  {
    hide Rows, BlockSize, Width, Unpacked, Sized;
    RowsAreFlat(data, pos, n, width, 12, compression, endian);
  }

  /** Unpadded big-endian rows: the bytes read are one string of bits, twelve bits a sample. */
  lemma BigRows(data: seq<Byte>, pos: nat, n: nat, width: nat, compression: Compression, endian: Endian)
    requires compression == PentaxPack || (compression == NoCompression && endian == Big)
    requires pos + Width(width / 2 * 3, n) <= |data|
    ensures var bytes := data[pos..pos + Width(width / 2 * 3, n)];
            var count := 2 * (|bytes| / 3);
            && Width(12, count) == 8 * |bytes|
            && Rows(data, pos, n, width, 12, compression, endian) == Ok(ReadAll(BytesToBits(bytes), 12, count))
  {
    hide Rows, Triples, ReadAll, BytesToBits, Width;
    assert BlockSize(width, 12, compression) == width / 2 * 3;
    TwelveBitRows(data, pos, n, width, compression, endian);
    TriplesReadBits(data[pos..pos + Width(width / 2 * 3, n)]);
  }

  /** Unpadded little-endian rows: every three bytes read are one number of 24 bits, low byte and low sample first. */
  lemma LittleRows(data: seq<Byte>, pos: nat, n: nat, width: nat, k: nat)
    requires pos + Width(width / 2 * 3, n) <= |data| && 3 * k + 3 <= Width(width / 2 * 3, n)
    ensures var r := Rows(data, pos, n, width, 12, NoCompression, Little);
            var b0: int, b1: int, b2: int := data[pos + 3 * k], data[pos + 3 * k + 1], data[pos + 3 * k + 2];
            && r.Ok? && |r.value| == 2 * (Width(width / 2 * 3, n) / 3) >= 2 * k + 2
            && r.value[2 * k] < 4096 && r.value[2 * k + 1] < 4096
            && r.value[2 * k] + 4096 * r.value[2 * k + 1] == b0 + 256 * b1 + 65536 * b2
  {
    hide Rows, Triples, Width;
    assert BlockSize(width, 12, NoCompression) == width / 2 * 3;
    TwelveBitRows(data, pos, n, width, NoCompression, Little);
    PairIsNumber(false, data[pos..pos + Width(width / 2 * 3, n)], k);
  }

  lemma PaddedBlock(width: nat, compression: Compression)
    requires width % 10 <= 1 && (compression == NikonPack || compression == Olympus || compression == PanasonicRaw1)
    ensures BlockSize(width, 12, compression) == 16 * (width / 10)
  {
    assert width / 2 == 5 * (width / 10);
  }

  /** Padded rows: five groups and a byte that is not looked at, big-endian for one compression and little-endian for
      two; group `k` of sixteen bytes `q`. */
  lemma PaddedRows(data: seq<Byte>, pos: nat, n: nat, width: nat, compression: Compression, endian: Endian,
                   q: nat, k: nat)
    requires compression == NikonPack || compression == Olympus || compression == PanasonicRaw1
    requires width % 10 <= 1 && pos + Width(16 * (width / 10), n) <= |data|
    requires 16 * q + 16 <= Width(16 * (width / 10), n) && k < 5
    ensures var r, at, from := Rows(data, pos, n, width, 12, compression, endian), 10 * q + 2 * k, pos + 16 * q + 3 * k;
            var b0: int, b1: int, b2: int := data[from], data[from + 1], data[from + 2];
            && r.Ok? && |r.value| == 10 * (Width(16 * (width / 10), n) / 16) >= 10 * q + 10
            && r.value[at] < 4096 && r.value[at + 1] < 4096
            && (compression == NikonPack ==> 4096 * r.value[at] + r.value[at + 1] == 65536 * b0 + 256 * b1 + b2)
            && (compression != NikonPack ==> r.value[at] + 4096 * r.value[at + 1] == b0 + 256 * b1 + 65536 * b2)
  {
    hide Rows, Padded, Width, BlockSize;
    PaddedBlock(width, compression);
    TwelveBitRows(data, pos, n, width, compression, endian);
    var size := 16 * (width / 10);
    PaddedPairIsNumber(compression == NikonPack, data[pos..pos + Width(size, n)], q, k);
  }

  /** Rows of 10 or 14 bits: the bytes read are one string of bits. */
  lemma DeepRows(data: seq<Byte>, pos: nat, n: nat, width: nat, bpc: nat, compression: Compression, endian: Endian)
    requires (bpc == 10 || bpc == 14) && width % 4 == 0
    requires pos + Width(if bpc == 10 then width / 4 * 5 else width / 4 * 7, n) <= |data|
    ensures var bytes := data[pos..pos + Width(if bpc == 10 then width / 4 * 5 else width / 4 * 7, n)];
            && Width(bpc, Width(width, n)) == 8 * |bytes|
            && Rows(data, pos, n, width, bpc, compression, endian)
               == Ok(ReadAll(BytesToBits(bytes), bpc, Width(width, n)))
  {
    hide Rows, ReadAll, BytesToBits, Width;
    assert BlockSize(width, bpc, compression) == if bpc == 10 then width / 4 * 5 else width / 4 * 7;
    RowsAreFlat(data, pos, n, width, bpc, compression, endian);
  }

  /** Rows that fail, each for its reason: no byte order, a padded row that ends within sixteen bytes, and values for
      which the bits of the row do not suffice. */
  lemma RowsFailure(data: seq<Byte>, pos: nat, n: nat, width: nat, bpc: nat, compression: Compression, endian: Endian)
    requires KnownDepth(bpc) && n > 0 && pos + BlockSize(width, bpc, compression) <= |data|
    ensures bpc == 12 && (compression == OtherCompression || (compression == NoCompression && endian == Unset)) ==>
              Rows(data, pos, n, width, bpc, compression, endian) == Err(Unreachable)
    ensures bpc == 12 && (compression == NikonPack || compression == Olympus || compression == PanasonicRaw1)
            && width % 10 > 1 ==>
              Rows(data, pos, n, width, bpc, compression, endian) == Err(Decompression)
    ensures bpc != 12 && width % 4 != 0 ==> Rows(data, pos, n, width, bpc, compression, endian) == Err(NotEnoughBits)
  {
    hide Rows, Width, RowSamples, BlockSize;
    var size := BlockSize(width, bpc, compression);
    NoWidth(size);
    NoRows(data, pos, width, bpc, compression, endian);
    NextRow(data, pos, 0, width, bpc, compression, endian);
    RowFailure(data[pos..pos + size], width, bpc, compression, endian);
    if Rows(data, pos, 1, width, bpc, compression, endian).Err? {
      RowsFail(data, pos, 1, n, width, bpc, compression, endian);
    }
  }

  lemma RowFailure(block: seq<Byte>, width: nat, bpc: nat, compression: Compression, endian: Endian)
    requires KnownDepth(bpc) && |block| == BlockSize(width, bpc, compression)
    ensures bpc == 12 && (compression == OtherCompression || (compression == NoCompression && endian == Unset)) ==>
              RowSamples(block, width, bpc, compression, endian) == Err(Unreachable)
    ensures bpc == 12 && (compression == NikonPack || compression == Olympus || compression == PanasonicRaw1)
            && width % 10 > 1 ==>
              RowSamples(block, width, bpc, compression, endian) == Err(Decompression)
    ensures bpc != 12 && width % 4 != 0 ==> RowSamples(block, width, bpc, compression, endian) == Err(NotEnoughBits)
  {
    hide ReadAll, BytesToBits, Unpacked, Width;
    if bpc == 12 {
      PaddedRowSize(width);
    } else {
      WidthIsProduct(bpc, width);
      BytesOfRowIff(width, bpc);
    }
  }

  // ----- packed images are read back

  /** The bits of values of `n` bits, one behind the other. */
  function BitsOf(values: seq<nat>, n: nat): (bits: seq<bool>)
    ensures |bits| == Width(n, |values|)
  {
    if values == [] then [] else ToBits(values[0], n) + BitsOf(values[1..], n)
  }

  lemma {:induction false} ReadUndoesBitsOf(values: seq<nat>, n: nat)
    requires forall k :: 0 <= k < |values| ==> values[k] < Pow2(n)
    ensures ReadAll(BitsOf(values, n), n, |values|) == values
  {
    hide Value, ToBits, Pow2;
    if values == [] {
      ReadNone([], n);
    } else {
      ReadUndoesBitsOf(values[1..], n);
      ReadStep(ToBits(values[0], n), BitsOf(values[1..], n), n, |values| - 1);
      ValueOfToBits(values[0], n);
    }
  }

  lemma TooFew(size: nat, n: nat, height: nat)
    requires size > 0 && n < height
    ensures size * n < size * height
  {
    MultipleFarFromZero(height - n, size);
    assert (height - n) * size == size * height - size * n;
  }

  lemma WholeImage(size: nat, byteLen: nat, height: nat)
    requires size > 0 && byteLen == Width(size, height)
    ensures BlocksRead(byteLen, size, height) == height
  {
    hide BlocksRead, Width;
    BlocksReadIsCeiling(byteLen, size, height);
    WidthIsProduct(size, height);
    var n := BlocksRead(byteLen, size, height);
    if n < height {
      TooFew(size, n, height);
    }
  }

  /** An image packed without padding and read as the compression says comes back, every sample of it. */
  method ReadPacked(values: seq<nat>, width: nat, height: nat, compression: Compression, endian: Endian)
    returns (r: Result<seq<nat>>)
    requires width > 0 && width % 2 == 0 && |values| == width * height && |values| % 2 == 0 && TwelveBit(values)
    requires compression == PentaxPack || (compression == NoCompression && endian != Unset)
    ensures r == Ok(values)
  {
    hide Rows, Triples, PackTriples, BlocksRead, TwelveBit, Width, BlockSize;
    var big := compression == PentaxPack || endian == Big;
    var bytes := PackTriples(big, values);
    var reader := new Reader(bytes);
    r := UnpackFromReader(reader, width, height, 12, compression, |bytes|, endian);
    PackedSize(|values|, width, height, compression);
    WholeImage(width / 2 * 3, |bytes|, height);
    TwelveBitRows(bytes, 0, height, width, compression, endian);
    assert bytes[0..|bytes|] == bytes;
    UnpackUndoesPack(big, values);
  }

  lemma PackedSize(len: nat, width: nat, height: nat, compression: Compression)
    requires width > 0 && width % 2 == 0 && len == width * height
    requires compression == PentaxPack || compression == NoCompression
    ensures len / 2 * 3 == Width(width / 2 * 3, height) && width / 2 * 3 > 0
    ensures BlockSize(width, 12, compression) == width / 2 * 3
  {
    WidthIsProduct(width / 2 * 3, height);
    var w := width / 2;
    var x := w * height;
    assert width * height == 2 * x;
    assert w * 3 * height == 3 * x;
  }

  /** The same for padded rows of whole tens, whatever the padding bytes. */
  method ReadPadded(values: seq<nat>, pads: seq<Byte>, width: nat, height: nat, compression: Compression,
                    endian: Endian) returns (r: Result<seq<nat>>)
    requires width > 0 && width % 10 == 0 && |values| == width * height && |values| == 10 * |pads| && TwelveBit(values)
    requires compression == NikonPack || compression == Olympus || compression == PanasonicRaw1
    ensures r == Ok(values)
  {
    hide Rows, Padded, PackPadded, BlocksRead, TwelveBit, Width, BlockSize;
    var big := compression == NikonPack;
    var bytes := PackPadded(big, values, pads);
    var reader := new Reader(bytes);
    r := UnpackFromReader(reader, width, height, 12, compression, |bytes|, endian);
    PaddedBlock(width, compression);
    TensOfImage(width, height, |pads|);
    WholeImage(16 * (width / 10), |bytes|, height);
    TwelveBitRows(bytes, 0, height, width, compression, endian);
    assert bytes[0..|bytes|] == bytes;
    UnpackUndoesPackPadded(big, values, pads);
  }

  lemma TensOfImage(width: nat, height: nat, groups: nat)
    requires width % 10 == 0 && width * height == 10 * groups
    ensures Width(16 * (width / 10), height) == 16 * groups
  {
    WidthIsProduct(16 * (width / 10), height);
    var g := width / 10;
    var x := g * height;
    assert width * height == 10 * x;
    assert 16 * g * height == 16 * x;
  }

  /** And for rows of 10 or 14 bits, one behind the other. */
  method ReadDeep(values: seq<nat>, bytes: seq<Byte>, width: nat, height: nat, bpc: nat, compression: Compression,
                  endian: Endian) returns (r: Result<seq<nat>>)
    requires (bpc == 10 || bpc == 14) && width > 0 && width % 4 == 0 && |values| == width * height
    requires forall k :: 0 <= k < |values| ==> values[k] < Pow2(bpc)
    requires BytesToBits(bytes) == BitsOf(values, bpc)
    ensures r == Ok(values)
  {
    hide Rows, ReadAll, BytesToBits, BlocksRead, BitsOf, Pow2, Width, BlockSize;
    var reader := new Reader(bytes);
    r := UnpackFromReader(reader, width, height, bpc, compression, |bytes|, endian);
    var size := if bpc == 10 then width / 4 * 5 else width / 4 * 7;
    DeepSize(width, height, bpc, compression);
    WidthIsProduct(width, height);
    WholeImage(size, |bytes|, height);
    DeepRows(bytes, 0, height, width, bpc, compression, endian);
    assert bytes[0..|bytes|] == bytes;
    ReadUndoesBitsOf(values, bpc);
  }

  lemma GroupsOfFour(g: nat, height: nat)
    ensures 4 * g * height == 4 * (g * height)
    ensures g * 5 * height == 5 * (g * height) && g * 7 * height == 7 * (g * height)
  {
  }

  lemma DeepSize(width: nat, height: nat, bpc: nat, compression: Compression)
    requires (bpc == 10 || bpc == 14) && width % 4 == 0
    ensures var size := if bpc == 10 then width / 4 * 5 else width / 4 * 7;
            && BlockSize(width, bpc, compression) == size && (width > 0 ==> size > 0)
            && Width(bpc, Width(width, height)) == 8 * Width(size, height)
  {
    var size := if bpc == 10 then width / 4 * 5 else width / 4 * 7;
    WidthIsProduct(width, height);
    WidthIsProduct(bpc, Width(width, height));
    WidthIsProduct(size, height);
    hide Width;
    GroupsOfFour(width / 4, height);
    assert width == 4 * (width / 4);
  }
}
