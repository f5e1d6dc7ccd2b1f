/** Which decoder an Olympus buffer is sent to by its length, and what comes of it there. */
module OlympusDispatch {
  import opened Bits
  import opened Unpackers
  import opened RowReader
  import opened OlympusDecoder

  datatype Route = ByRows | Interlaced | Words | Compressed

  /** The bytes of one packed row as the dispatch counts them. */
  function DispatchRow(width: nat): nat {
    width * 12 / 8 + (width + 2) / 10
  }

  function RouteFor(len: nat, width: nat, height: nat): Route {
    if len == height * DispatchRow(width) then ByRows
    else if len == height * width * 3 / 2 then if width < 3700 then Interlaced else Words
    else Compressed
  }

  // ----- words stored backwards

  /** On the buffer length of a frame, the word decoder succeeds exactly when the frame is a multiple of eight. */
  lemma WordsFitIff(len: nat, width: nat, height: nat)
    requires len == height * width * 3 / 2
    ensures len % 12 == 0 && len / 12 * 8 <= width * height <==> width * height % 8 == 0
    ensures width * height % 8 == 0 ==> len / 12 * 8 == width * height
  {
    ByEights(len, width * height);
    assert height * width == width * height;
  }

  lemma ByEights(len: nat, area: nat)
    requires len == area * 3 / 2
    ensures len % 12 == 0 && len / 12 * 8 <= area <==> area % 8 == 0
    ensures area % 8 == 0 ==> len / 12 * 8 == area
  {
    var q, r := area / 8, area % 8;
    assert len == 12 * q + r * 3 / 2;
  }

  /** A buffer sent to the word decoder is decoded to its last sample, or stops it, by the size of the frame alone. */
  lemma WordsRoute(buf: seq<Byte>, width: nat, height: nat)
    requires RouteFor(|buf|, width, height) == Words
    ensures |buf| % 12 == 0 && |buf| / 12 * 8 <= width * height <==> width * height % 8 == 0
    ensures width * height % 8 == 0 ==> |Triples(true, SwapWords(buf))| == width * height
  {
    hide Triples, SwapWords;
    WordsFitIff(|buf|, width, height);
    if width * height % 8 == 0 {
      MultipleOfTwelve(|buf|);
    }
  }

  /** Four rows of 3701 samples go to the word decoder and stop it. */
  lemma WordsStop()
    ensures RouteFor(22206, 3701, 4) == Words && 22206 % 12 != 0 && 3701 * 4 % 8 != 0
  {
  }

  // ----- two fields

  /** On the buffer length of a frame, the interlaced decoder stays in range exactly for even widths and two rows or
      more, when the page behind the first field starts at most one row behind it. */
  lemma FramesInRangeIff(width: nat, height: nat)
    ensures Decodes(height * width * 3 / 2, width, height)
       <==> && width > 0 && width % 2 == 0 && height >= 2
            && InterlacedOffset(width, height) <= Width(RowBytes(width), (height + 1) / 2 + 1)
  {
    hide InterlacedOffset, Width, RowStart;
    if width > 0 && width % 2 == 0 {
      EvenFrameInRangeIff(width, height);
    } else if width > 0 {
      OddFrameStops(width, height);
    }
  }

  lemma EvenFrameInRangeIff(width: nat, height: nat)
    requires width % 2 == 0
    ensures FieldsInRange(height * width * 3 / 2, width, height)
       <==> height >= 2 && InterlacedOffset(width, height) <= Width(RowBytes(width), (height + 1) / 2 + 1)
  {
    hide InterlacedOffset, Width, RowStart;
    OffsetIsNextPage(width, height);
    FrameBytes(width, height);
    var rb, half := RowBytes(width), (height + 1) / 2;
    RowStartOfEven(width, height);
    if height >= 2 {
      RowStartOfEven(width, (height - 1) / 2);
      RowStartOfEven(width, height / 2 - 1);
      assert half + 1 + (height / 2 - 1) == height;
      WidthAdd(rb, half + 1, height / 2 - 1);
      WidthMonotone(rb, (height - 1) / 2, height);
    } else {
      WidthMonotone(rb, height, half);
    }
  }

  lemma FrameBytes(width: nat, height: nat)
    ensures height * width * 3 / 2 == RowStart(width, height)
  {
  }

  /** A frame of odd width stops the decoder: its first row ends within a group that is there. */
  lemma OddFrameStops(width: nat, height: nat)
    requires width % 2 == 1
    ensures !Decodes(height * width * 3 / 2, width, height)
  {
    hide InterlacedOffset, RowStart;
    OffsetIsNextPage(width, height);
    FrameBytes(width, height);
    if height <= 1 {
      RowStartMonotone(width, height, (height + 1) / 2);
    } else {
      assert height * width >= 2 * width by { assert (height - 2) * width >= 0; }
    }
  }

  /** What an interlaced frame loses on the length the dispatch accepts: the end of its second field, always. */
  lemma SecondFieldCut(width: nat, height: nat)
    requires Decodes(height * width * 3 / 2, width, height)
    ensures InterlacedOffset(width, height) <= height * width * 3 / 2
    ensures (height * width * 3 / 2 - InterlacedOffset(width, height)) / 3 * 2 < Width(width, height / 2)
  {
    hide InterlacedOffset, Width, RowStart;
    FramesInRangeIff(width, height);
    OffsetIsNextPage(width, height);
    FrameBytes(width, height);
    RowStartOfEven(width, height);
    var half, rest, w := (height + 1) / 2, height / 2, width / 2;
    assert half + rest == height;
    WidthAdd(RowBytes(width), half, rest);
    WidthScales(w, rest);
    assert RowBytes(width) == w * 3 && width == 2 * w;
  }

  /** The interlaced route: the frames it stops at, and what it makes of the others. All even rows are read, and of the
      odd samples those before an index that is less than their number; the others are 0. */
  lemma InterlacedRoute(buf: seq<Byte>, width: nat, height: nat)
    requires RouteFor(|buf|, width, height) == Interlaced
    ensures Decodes(|buf|, width, height)
       <==> && width > 0 && width % 2 == 0 && height >= 2
            && InterlacedOffset(width, height) <= Width(RowBytes(width), (height + 1) / 2 + 1)
    ensures Decodes(|buf|, width, height) ==>
              var second := buf[InterlacedOffset(width, height)..];
              && |second| / 3 * 2 < Width(width, height / 2)
              && forall k :: k >= |second| / 3 * 2 ==> FieldSample(second, k) == 0
  {
    hide InterlacedOffset, Width, Triples, FieldsInRange, HalfGroupsMissing;
    FramesInRangeIff(width, height);
    if Decodes(|buf|, width, height) {
      SecondFieldCut(width, height);
    }
  }

  /** A frame packed into two fields and cut to the length the dispatch accepts: its even rows and the odd samples up
      to the cut come back, and the whole frame does exactly when the samples behind the cut are 0. */
  lemma InterlacedFrame(even: seq<nat>, gap: seq<Byte>, odd: seq<nat>, width: nat, height: nat, len: nat, kept: nat)
    requires FieldsOfFrame(even, gap, odd, width, height)
    requires len == height * width * 3 / 2 && Decodes(len, width, height)
    requires kept == (len - InterlacedOffset(width, height)) / 3 * 2
    ensures len < |Fields(even, gap, odd)| && kept < |odd|
    ensures WovenRows(Fields(even, gap, odd)[..len], width, height, height)
         == Weave(even, CutOff(odd, kept), width, height)
    ensures Weave(even, CutOff(odd, kept), width, height) == Weave(even, odd, width, height)
       <==> forall k :: kept <= k < |odd| ==> odd[k] == 0
  {
    hide InterlacedOffset, Width, PackTriples, Weave, WovenRows, TwelveBit, CutOff, FieldsInRange, HalfGroupsMissing;
    var offset := InterlacedOffset(width, height);
    SecondFieldCut(width, height);
    CutWithinFields(len - offset, |odd|);
    InterlacedRoundTrip(even, gap, odd, width, height, len);
    CutFrameIntactIff(even, odd, width, height, kept);
  }

  lemma CutWithinFields(bytes: nat, samples: nat)
    requires bytes / 3 * 2 < samples && samples % 2 == 0
    ensures bytes < samples / 2 * 3
  {
  }

  /** One row of eight samples goes to the interlaced decoder and stops it; of two rows of 1368, it reads all of the
      first and four samples of the second. */
  lemma InterlacedStopsAndCuts()
    ensures RouteFor(12, 8, 1) == Interlaced && !Decodes(12, 8, 1)
    ensures RouteFor(4104, 1368, 2) == Interlaced && Decodes(4104, 1368, 2)
    ensures InterlacedOffset(1368, 2) == 4096 && (4104 - InterlacedOffset(1368, 2)) / 3 * 2 == 4
  {
  }

  /** A frame of two rows, the second of ones, packed into fields and cut to the length the dispatch accepts, does not
      come back. */
  lemma SecondRowLost()
    ensures var even, gap, odd := seq<nat>(1368, i => 0), seq<Byte>(2044, i => 0), seq<nat>(1368, i => 1);
            && FieldsOfFrame(even, gap, odd, 1368, 2)
            && RouteFor(4104, 1368, 2) == Interlaced && Decodes(4104, 1368, 2)
            && 4104 <= |Fields(even, gap, odd)|
            && WovenRows(Fields(even, gap, odd)[..4104], 1368, 2, 2) != Weave(even, odd, 1368, 2)
  {
    hide PackTriples, WovenRows, Weave, CutOff, Width, InterlacedOffset, Decodes, Fields;
    var even, gap, odd := seq<nat>(1368, i => 0), seq<Byte>(2044, i => 0), seq<nat>(1368, i => 1);
    InterlacedStopsAndCuts();
    WidthOne(1368);
    PackedLength(true, even, 684);
    InterlacedFrame(even, gap, odd, 1368, 2, 4104, 4);
    assert odd[4] != 0;
  }

  // ----- packed rows

  /** The bytes of a packed row as the row reader counts them. */
  function ReaderRow(width: nat): nat {
    BlockSize(width, 12, Olympus)
  }

  /** The dispatch and the row reader count the same bytes in a row exactly for even widths that do not end in 8,
      and a row then decodes exactly when the width is a multiple of ten. Rows that decode are at most a byte apart. */
  lemma PackedRowsAgreeIff(width: nat)
    ensures DispatchRow(width) == ReaderRow(width) <==> width % 2 == 0 && width % 10 != 8
    ensures DispatchRow(width) == ReaderRow(width) && RowDecodes(width, 12, Olympus, Little) <==> width % 10 == 0
    ensures ReaderRow(width) <= DispatchRow(width)
    ensures RowDecodes(width, 12, Olympus, Little) ==>
              && ReaderRow(width) == 16 * (width / 10)
              && DispatchRow(width) == 16 * (width / 10) + width % 10
  {
    var q, r := width / 10, width % 10;
    assert width == 10 * q + r;
    assert width * 12 / 8 == 15 * q + r * 12 / 8;
    assert width / 2 * 3 == 15 * q + r / 2 * 3;
    assert (width + 2) / 10 == q + (r + 2) / 10;
  }

  /** One row of eight samples is sent to the row reader as thirteen bytes, which reads twelve and fails. */
  lemma PackedRowsDisagree()
    ensures RouteFor(13, 8, 1) == ByRows && ReaderRow(8) == 12 && !RowDecodes(8, 12, Olympus, Little)
  {
  }

  /** What the row reader returns for a buffer, all of which it is told to read. */
  function ReadRows(buf: seq<Byte>, width: nat, height: nat): Result<seq<nat>> {
    Rows(buf, 0, BlocksRead(|buf|, ReaderRow(width), height), width, 12, Olympus, Little)
  }

  lemma AllRowsRead(len: nat, width: nat, height: nat)
    requires len == height * DispatchRow(width)
    ensures BlocksRead(len, ReaderRow(width), height) == if ReaderRow(width) == 0 then 0 else height
    ensures Width(ReaderRow(width), height) <= len
  {
    hide BlocksRead, DispatchRow, ReaderRow, RowDecodes;
    PackedRowsAgreeIff(width);
    var size, extra := ReaderRow(width), DispatchRow(width) - ReaderRow(width);
    var n := BlocksRead(len, size, height);
    WidthIsProduct(size, height);
    BlocksReadIsCeiling(len, size, height);
    MoreBytes(height, size, extra);
    if size > 0 && n < height {
      TooFew(size, n, height);
    }
  }

  lemma MoreBytes(height: nat, size: nat, extra: nat)
    ensures size * height <= height * (size + extra)
  {
    assert height * extra >= 0;
    assert height * (size + extra) == size * height + height * extra;
  }

  /** The packed route: it succeeds exactly when there are no rows or the width ends in 0 or 1, and then reads the
      buffer from its start without the bytes the dispatch counts in addition; for widths ending in 1 each row is one
      sample short. */
  lemma PackedRoute(buf: seq<Byte>, width: nat, height: nat)
    requires RouteFor(|buf|, width, height) == ByRows
    ensures ReadRows(buf, width, height).Ok? <==> height == 0 || width % 10 <= 1
    ensures ReadRows(buf, width, height).Ok? ==>
              && Width(ReaderRow(width), height) <= |buf|
              && ReadRows(buf, width, height).value == Padded(false, buf[..Width(ReaderRow(width), height)])
              && |ReadRows(buf, width, height).value| == Width(width / 10 * 10, height)
    ensures width % 10 == 0 ==> Width(ReaderRow(width), height) == |buf|
  {
    hide DispatchRow, BlocksRead, Rows, Width, Padded, RowDecodes;
    AllRowsRead(|buf|, width, height);
    PackedRowsAgreeIff(width);
    PackedDecodes(width);
    var size := ReaderRow(width);
    WidthIsProduct(size, height);
    NoWidth(size);
    NoWidth(width / 10 * 10);
    var n := BlocksRead(|buf|, size, height);
    ImageDecodesIff(buf, 0, n, width, 12, Olympus, Little);
    if height == 0 || width % 10 <= 1 {
      EmptyRows(width, height);
      assert Width(size, n) == Width(size, height);
      if n == 0 {
        NoRows(buf, 0, width, 12, Olympus, Little);
        assert buf[..0] == [];
        NothingPadded(false);
      } else {
        TwelveBitRows(buf, 0, n, width, Olympus, Little);
        assert buf[0..Width(size, n)] == buf[..Width(size, n)];
      }
      SixteenForTen(width / 10, height);
    }
  }

  lemma PackedDecodes(width: nat)
    ensures RowDecodes(width, 12, Olympus, Little) <==> width % 10 <= 1
  {
  }

  lemma EmptyRows(width: nat, height: nat)
    ensures ReaderRow(width) == 0 ==> Width(ReaderRow(width), height) == 0
  {
    NoBytes(height);
  }

  lemma SixteenForTen(q: nat, height: nat)
    ensures Width(16 * q, height) / 16 * 10 == Width(q * 10, height)
  {
    WidthIsProduct(16 * q, height);
    WidthIsProduct(q * 10, height);
    var x := q * height;
    assert 16 * q * height == 16 * x;
    assert q * 10 * height == 10 * x;
    assert 16 * x / 16 == x;
  }

  /** The samples of `n` rows where the dispatch sees them; a byte behind the last group of a row gives none. */
  function OwnRows(buf: seq<Byte>, width: nat, n: nat): seq<nat>
    requires |buf| == Width(DispatchRow(width), n)
  {
    if n == 0 then []
    else
      var size := DispatchRow(width);
      Padded(false, buf[..size]) + OwnRows(buf[size..], width, n - 1)
  }

  lemma OwnRowsStep(buf: seq<Byte>, width: nat, n: nat)
    requires |buf| == Width(DispatchRow(width), n) && n > 0
    ensures var own := DispatchRow(width);
            && own <= |buf| && |buf[own..]| == Width(own, n - 1)
            && OwnRows(buf, width, n) == Padded(false, buf[..own]) + OwnRows(buf[own..], width, n - 1)
  {
    hide Padded, DispatchRow;
  }

  lemma NoOwnRows(buf: seq<Byte>, width: nat)
    requires buf == []
    ensures Width(DispatchRow(width), 0) == 0 && OwnRows(buf, width, 0) == []
  {
    NoWidth(DispatchRow(width));
  }

  /** Whatever the buffer of a frame of this size, the samples read are those of its own rows. */
  ghost predicate InStep(width: nat, height: nat)
    requires RowDecodes(width, 12, Olympus, Little)
  {
    RowsFitBuffer(width, height);
    forall buf: seq<Byte> :: |buf| == Width(DispatchRow(width), height) ==>
      Padded(false, buf[..Width(ReaderRow(width), height)]) == OwnRows(buf, width, height)
  }

  lemma RowsFitBuffer(width: nat, height: nat)
    ensures Width(ReaderRow(width), height) <= Width(DispatchRow(width), height)
  {
    WidthIsProduct(DispatchRow(width), height);
    AllRowsRead(height * DispatchRow(width), width, height);
  }

  lemma PaddedRest(buf: seq<Byte>, size: nat, n: nat)
    requires size % 16 == 0 && size <= n <= |buf|
    ensures Padded(false, buf[..n]) == Padded(false, buf[..size]) + Padded(false, buf[size..][..n - size])
  {
    hide Padded;
    assert buf[..n] == buf[..size] + buf[size..][..n - size];
    PaddedConcat(false, buf[..size], buf[size..][..n - size]);
  }

  lemma NoPaddedGroup(rest: seq<Byte>)
    requires |rest| < 16
    ensures Padded(false, rest) == []
  {
  }

  lemma WholeSixteens(g: nat)
    ensures 16 * g % 16 == 0
  {
  }

  /** Rows of whole groups follow each other without a byte between them. */
  lemma {:induction false} TensInStep(buf: seq<Byte>, width: nat, n: nat)
    requires width % 10 == 0 && RowDecodes(width, 12, Olympus, Little)
    requires |buf| == Width(DispatchRow(width), n)
    ensures DispatchRow(width) == ReaderRow(width)
    ensures Padded(false, buf[..Width(ReaderRow(width), n)]) == OwnRows(buf, width, n)
    decreases n
  {
    hide Padded, DispatchRow, ReaderRow, RowDecodes, OwnRows, Width;
    PackedRowsAgreeIff(width);
    NoWidth(DispatchRow(width));
    assert buf[..|buf|] == buf;
    if n == 0 {
      NoPaddedGroup(buf);
      NoOwnRows(buf, width);
    } else {
      var size := DispatchRow(width);
      OwnRowsStep(buf, width, n);
      var rest := buf[size..];
      TensInStep(rest, width, n - 1);
      assert rest[..|rest|] == rest && buf[..size] + rest == buf;
      WholeSixteens(width / 10);
      PaddedConcat(false, buf[..size], rest);
    }
  }

  /** So do rows of which there is none or one, and rows of one sample, from which nothing is read. */
  lemma {:induction false} ShortInStep(buf: seq<Byte>, width: nat, n: nat)
    requires width == 1 || (n <= 1 && width % 10 == 1)
    requires RowDecodes(width, 12, Olympus, Little)
    requires |buf| == Width(DispatchRow(width), n)
    ensures Width(ReaderRow(width), n) <= |buf|
    ensures Padded(false, buf[..Width(ReaderRow(width), n)]) == OwnRows(buf, width, n)
    decreases n
  {
    hide Padded, DispatchRow, ReaderRow, RowDecodes, OwnRows, Width;
    PackedRowsAgreeIff(width);
    RowsFitBuffer(width, n);
    var size := DispatchRow(width);
    NoWidth(size);
    NoWidth(ReaderRow(width));
    NoPaddedGroup(buf[..0]);
    if n == 0 {
      NoOwnRows(buf, width);
      return;
    }
    OwnRowsStep(buf, width, n);
    if width == 1 {
      NoBytes(n);
      NoBytes(n - 1);
      ShortInStep(buf[size..], width, n - 1);
      NoPaddedGroup(buf[..size]);
      assert buf[..0] == buf[size..][..0];
    } else {
      WidthOne(size);
      WidthOne(ReaderRow(width));
      NoOwnRows(buf[size..], width);
      assert buf[..size] == buf;
      PaddedRest(buf, ReaderRow(width), size);
      NoPaddedGroup(buf[ReaderRow(width)..][..1]);
    }
  }

  lemma FirstSample(buf: seq<Byte>)
    requires |buf| >= 16
    ensures |Padded(false, buf)| > 0 && Padded(false, buf)[0] == Group(false, buf[0], buf[1], buf[2])[0]
  {
    hide Group;
    assert Padded(false, buf) == Triples(false, buf[..15]) + Padded(false, buf[16..]);
    assert Triples(false, buf[..15]) == Group(false, buf[0], buf[1], buf[2]) + Triples(false, buf[..15][3..]);
  }

  /** A second row whose width ends in 1 is read a byte early. */
  lemma OutOfStep(width: nat, height: nat)
    requires width % 10 == 1 && width > 1 && height >= 2 && RowDecodes(width, 12, Olympus, Little)
    ensures !InStep(width, height)
  {
    hide Padded, DispatchRow, ReaderRow, RowDecodes, Width, OwnRows, Group;
    PackedRowsAgreeIff(width);
    var g := width / 10;
    var size, own := 16 * g, 16 * g + 1;
    RowsFitBuffer(width, height);
    TwoRows(size, height);
    var n, len := Width(size, height), Width(own, height);
    var buf := seq<Byte>(len, i => if i == size then 1 else 0);
    ReadSecondRow(buf, g, n);
    OwnSecondRow(buf, g, width, height);
    LowByte(0);
    LowByte(1);
  }

  /** The first sample behind `g` padded groups. */
  lemma ReadSecondRow(buf: seq<Byte>, g: nat, n: nat)
    requires 16 * g + 16 <= n <= |buf|
    ensures |Padded(false, buf[..n])| > 10 * g
    ensures Padded(false, buf[..n])[10 * g] == Group(false, buf[16 * g], buf[16 * g + 1], buf[16 * g + 2])[0]
  {
    hide Padded, Group;
    var rest := buf[16 * g..][..n - 16 * g];
    PaddedRest(buf, 16 * g, n);
    PaddedLength(buf[..16 * g], g);
    FirstSample(rest);
    assert rest[0] == buf[16 * g] && rest[1] == buf[16 * g + 1] && rest[2] == buf[16 * g + 2];
  }

  lemma PaddedLength(input: seq<Byte>, g: nat)
    requires 16 * g <= |input| < 16 * g + 16
    ensures |Padded(false, input)| == 10 * g
  {
    hide Padded;
  }

  lemma LowByte(b: Byte)
    ensures Group(false, b, 0, 0)[0] == b
  {
    hide BigGroup, LittleGroup;
    GroupValues(b, 0, 0);
  }

  lemma TwoRows(size: nat, height: nat)
    requires height >= 2
    ensures Width(size, height) == size + size + Width(size, height - 2)
  {
    assert Width(size, height - 1) == size + Width(size, height - 2);
  }

  lemma OwnSecondRow(buf: seq<Byte>, g: nat, width: nat, height: nat)
    requires height >= 2 && |buf| == Width(DispatchRow(width), height) && DispatchRow(width) == 16 * g + 1 && g > 0
    ensures |buf| > 16 * g + 3 && |OwnRows(buf, width, height)| > 10 * g
    ensures OwnRows(buf, width, height)[10 * g] == Group(false, buf[16 * g + 1], buf[16 * g + 2], buf[16 * g + 3])[0]
  {
    hide Padded, DispatchRow, Width, OwnRows, Group;
    var own := 16 * g + 1;
    TwoRows(own, height);
    OwnRowsStep(buf, width, height);
    OwnRowsStep(buf[own..], width, height - 1);
    PaddedLength(buf[..own], g);
    var second := buf[own..][..own];
    FirstSample(second);
    assert second[0] == buf[own] && second[1] == buf[own + 1] && second[2] == buf[own + 2];
  }

  /** Rows that decode are those of the buffer exactly for widths ending in 0, single rows and rows of one sample. */
  lemma InStepIff(width: nat, height: nat)
    requires RowDecodes(width, 12, Olympus, Little)
    ensures InStep(width, height) <==> width % 10 == 0 || width == 1 || height <= 1
  {
    hide Padded, DispatchRow, ReaderRow, OwnRows, Width;
    RowsFitBuffer(width, height);
    if width % 10 == 0 {
      forall buf: seq<Byte> | |buf| == Width(DispatchRow(width), height)
        ensures Padded(false, buf[..Width(ReaderRow(width), height)]) == OwnRows(buf, width, height)
      {
        TensInStep(buf, width, height);
      }
    } else if width == 1 || height <= 1 {
      forall buf: seq<Byte> | |buf| == Width(DispatchRow(width), height)
        ensures Padded(false, buf[..Width(ReaderRow(width), height)]) == OwnRows(buf, width, height)
      {
        ShortInStep(buf, width, height);
      }
    } else {
      OutOfStep(width, height);
    }
  }

  // ----- the dispatch

  /** What becomes of a buffer: samples, the buffer as it is since reading it failed, a stop of the program, or the
      decompressor that is not part of this model. */
  datatype Outcome = Decoded(samples: seq<nat>) | Kept | Stopped | Elsewhere

  function OutcomeOf(buf: seq<Byte>, width: nat, height: nat): Outcome {
    match RouteFor(|buf|, width, height)
    case ByRows =>
      (match ReadRows(buf, width, height)
       case Ok(samples) => Decoded(samples)
       case Err(_) => Kept)
    case Interlaced => if Decodes(|buf|, width, height) then Decoded(WovenRows(buf, width, height, height)) else Stopped
    case Words => if width * height % 8 == 0 then Decoded(Triples(true, SwapWords(buf))) else Stopped
    case Compressed => Elsewhere
  }

  method Decompress(buf: seq<Byte>, width: nat, height: nat) returns (r: Outcome)
    ensures r == OutcomeOf(buf, width, height)
  {
    hide Decodes, WovenRows, Triples, SwapWords, Rows, BlocksRead, InterlacedOffset, DispatchRow;
    match RouteFor(|buf|, width, height)
    case ByRows =>
      var reader := new Reader(buf);
      var rows := UnpackFromReader(reader, width, height, 12, Olympus, |buf|, Little);
      r := if rows.Ok? then Decoded(rows.value) else Kept;
    case Interlaced =>
      var frame := DecodeInterlaced(buf, width, height);
      r := if frame.Ok? then Decoded(frame.value) else Stopped;
    case Words =>
      WordsRoute(buf, width, height);
      var frame := DecodeWords(buf, width, height);
      r := if frame.Ok? then Decoded(frame.value) else Stopped;
      WholeFrame(|buf|, width, height);
    case Compressed =>
      r := Elsewhere;
  }

  lemma WholeFrame(len: nat, width: nat, height: nat)
    requires RouteFor(len, width, height) == Words
    ensures width * height % 8 == 0 ==> len / 12 * 8 == width * height
  {
    WordsFitIff(len, width, height);
  }

  // ----- what the dispatch does with frames

  /** The routes by length and width; a width of 3664, which is that of an interlaced model, goes to that decoder. */
  lemma Routes(len: nat, width: nat, height: nat)
    ensures RouteFor(len, width, height) == ByRows <==> len == height * (width * 12 / 8 + (width + 2) / 10)
    ensures RouteFor(len, width, height) == Interlaced
       <==> len != height * (width * 12 / 8 + (width + 2) / 10) && len == height * width * 3 / 2 && width < 3700
    ensures RouteFor(len, width, height) == Words
       <==> len != height * (width * 12 / 8 + (width + 2) / 10) && len == height * width * 3 / 2 && width >= 3700
    ensures height > 0 && len == height * 5496 ==> RouteFor(len, 3664, height) == Interlaced
  {
    assert height * 3664 * 3 / 2 == height * 5496;
  }

  /** Buffers that give no samples, route by route. */
  lemma Failures(buf: seq<Byte>, width: nat, height: nat)
    ensures RouteFor(|buf|, width, height) == ByRows && height > 0 && width % 10 > 1 ==>
              OutcomeOf(buf, width, height) == Kept
    ensures RouteFor(|buf|, width, height) == Interlaced && !Decodes(|buf|, width, height) ==>
              OutcomeOf(buf, width, height) == Stopped
    ensures RouteFor(|buf|, width, height) == Words && width * height % 8 != 0 ==>
              OutcomeOf(buf, width, height) == Stopped
    ensures RouteFor(|buf|, width, height) == Compressed ==> OutcomeOf(buf, width, height) == Elsewhere
  {
    hide ReadRows, RouteFor, Decodes, WovenRows, Triples, SwapWords, DispatchRow;
    if RouteFor(|buf|, width, height) == ByRows {
      PackedRoute(buf, width, height);
    }
  }

  /** A frame of whole tens, packed in little-endian order with any padding bytes, comes back through the dispatch. */
  lemma PackedFrame(values: seq<nat>, pads: seq<Byte>, width: nat, height: nat)
    requires width % 10 == 0 && |values| == width * height && |values| == 10 * |pads| && TwelveBit(values)
    ensures OutcomeOf(PackPadded(false, values, pads), width, height) == Decoded(values)
  {
    hide ReadRows, Padded, PackPadded, TwelveBit, WovenRows, Decodes, Triples, SwapWords, DispatchRow, ReaderRow, Width;
    hide RowDecodes;
    var buf := PackPadded(false, values, pads);
    TensOfImage(width, height, |pads|);
    PackedRowsAgreeIff(width);
    WidthIsProduct(16 * (width / 10), height);
    Commute(16 * (width / 10), height);
    assert RouteFor(|buf|, width, height) == ByRows;
    PackedRoute(buf, width, height);
    assert buf[..|buf|] == buf;
    UnpackUndoesPackPadded(false, values, pads);
  }

  lemma Commute(a: int, b: int)
    ensures a * b == b * a
  {
  }

  /** A frame of whole eights, wide enough for the word decoder, comes back when it is packed in big-endian order and
      every word of it reversed. */
  lemma WordsFrame(values: seq<nat>, groups: nat, width: nat, height: nat)
    requires width >= 3700 && height > 0 && width * height == |values| == 8 * groups && TwelveBit(values)
    requires |values| % 2 == 0
    ensures OutcomeOf(SwapWords(PackTriples(true, values)), width, height) == Decoded(values)
  {
    hide ReadRows, PackTriples, TwelveBit, WovenRows, Decodes, Triples, SwapWords, RouteFor;
    WordsRoundTrip(values, groups);
    WordsLength(groups, width, height);
  }

  lemma WordsLength(groups: nat, width: nat, height: nat)
    requires width >= 3700 && height > 0 && width * height == 8 * groups
    ensures RouteFor(12 * groups, width, height) == Words && width * height % 8 == 0
  {
    hide DispatchRow;
    Commute(width, height);
    MoreThanFrame(width, height);
  }

  /** From a width of 8 on, packed rows with padding take more bytes than the frame. */
  lemma MoreThanFrame(width: nat, height: nat)
    requires width >= 8 && height > 0
    ensures height * width * 3 / 2 < height * DispatchRow(width)
  {
    var d := DispatchRow(width);
    assert 2 * d >= 3 * width + 1;
    assert height * (2 * d) >= height * (3 * width + 1) by { assert height * (2 * d - 3 * width - 1) >= 0; }
    assert height * (3 * width + 1) == 3 * (height * width) + height;
    assert height * (2 * d) == 2 * (height * d);
  }

  /** A frame packed into two fields, as much of it as the dispatch accepts: what comes back has all even rows and the
      odd samples before the cut. */
  lemma InterlacedOutcome(even: seq<nat>, gap: seq<Byte>, odd: seq<nat>, width: nat, height: nat, len: nat, kept: nat)
    requires FieldsOfFrame(even, gap, odd, width, height) && 8 <= width < 3700
    requires len == height * width * 3 / 2 && Decodes(len, width, height)
    requires kept == (len - InterlacedOffset(width, height)) / 3 * 2
    ensures len < |Fields(even, gap, odd)| && kept < |odd|
    ensures OutcomeOf(Fields(even, gap, odd)[..len], width, height)
         == Decoded(Weave(even, CutOff(odd, kept), width, height))
  {
    hide InterlacedOffset, Width, PackTriples, Weave, WovenRows, TwelveBit, CutOff, FieldsInRange, HalfGroupsMissing;
    hide ReadRows, Triples, SwapWords, DispatchRow;
    InterlacedFrame(even, gap, odd, width, height, len, kept);
    FramesInRangeIff(width, height);
    MoreThanFrame(width, height);
    assert RouteFor(len, width, height) == Interlaced;
  }
}
