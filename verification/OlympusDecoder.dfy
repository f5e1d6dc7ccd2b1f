/** The two hand-written Olympus decoders: 32-bit words stored backwards, and rows split into two fields. */
module OlympusDecoder {
  import opened Bits
  import opened Unpackers

  // ----- words stored backwards

  /** Every whole 4-byte word reversed. */
  function SwapWords(bytes: seq<Byte>): (swapped: seq<Byte>)
    ensures |swapped| == |bytes| / 4 * 4
  {
    if |bytes| < 4 then [] else [bytes[3], bytes[2], bytes[1], bytes[0]] + SwapWords(bytes[4..])
  }

  lemma {:induction false} SwapConcat(a: seq<Byte>, b: seq<Byte>)
    requires |a| % 4 == 0
    ensures SwapWords(a + b) == SwapWords(a) + SwapWords(b)
  {
    if a == [] {
      assert a + b == b;
    } else {
      assert (a + b)[4..] == a[4..] + b;
      SwapConcat(a[4..], b);
    }
  }

  lemma {:induction false} SwapTwice(a: seq<Byte>)
    requires |a| % 4 == 0
    ensures SwapWords(SwapWords(a)) == a
  {
    if a != [] {
      var w := [a[3], a[2], a[1], a[0]];
      SwapConcat(w, SwapWords(a[4..]));
      assert SwapWords(w) == [a[0], a[1], a[2], a[3]] + SwapWords([]);
      SwapTwice(a[4..]);
    }
  }

  /** The eight samples the decoder takes from twelve bytes. */
  function EightSamples(b: seq<Byte>): (samples: seq<nat>)
    requires |b| == 12
    ensures |samples| == 8
  {
    [ByteAndHalf(b[3], b[2]), HalfAndByte(b[2], b[1]), ByteAndHalf(b[0], b[7]), HalfAndByte(b[7], b[6]),
     ByteAndHalf(b[5], b[4]), HalfAndByte(b[4], b[11]), ByteAndHalf(b[10], b[9]), HalfAndByte(b[9], b[8])]
  }

  /** They are the plain big-endian samples of those bytes with each word reversed. */
  lemma EightAreSwapped(b: seq<Byte>)
    requires |b| == 12
    ensures Triples(true, SwapWords(b)) == EightSamples(b)
  {
    hide ByteAndHalf, HalfAndByte;
    var s := [b[3], b[2], b[1], b[0], b[7], b[6], b[5], b[4], b[11], b[10], b[9], b[8]];
    TwelveSwapped(b);
    TwelveUnpacked(s);
  }

  lemma TwelveSwapped(b: seq<Byte>)
    requires |b| == 12
    ensures SwapWords(b) == [b[3], b[2], b[1], b[0], b[7], b[6], b[5], b[4], b[11], b[10], b[9], b[8]]
  {
    assert b == b[..4] + b[4..8] + b[8..];
    SwapConcat(b[..4] + b[4..8], b[8..]);
    SwapConcat(b[..4], b[4..8]);
    OneWord(b[..4]);
    OneWord(b[4..8]);
    OneWord(b[8..]);
  }

  lemma OneWord(w: seq<Byte>)
    requires |w| == 4
    ensures SwapWords(w) == [w[3], w[2], w[1], w[0]]
  {
    assert SwapWords(w[4..]) == [];
  }

  lemma TwelveUnpacked(s: seq<Byte>)
    requires |s| == 12
    ensures Triples(true, s) == Group(true, s[0], s[1], s[2]) + Group(true, s[3], s[4], s[5])
                              + Group(true, s[6], s[7], s[8]) + Group(true, s[9], s[10], s[11])
  {
    hide Triples, Group;
    assert s == s[0..12];
    NextGroup(true, s, 0, 12);
    NextGroup(true, s, 3, 12);
    NextGroup(true, s, 6, 12);
    NextGroup(true, s, 9, 12);
    NoGroups(true, false, s, 12);
  }

  /** The word decoder. An index out of range, where the program stops, is the error. */
  method DecodeWords(buf: seq<Byte>, width: nat, height: nat) returns (r: Result<seq<nat>>)
    ensures r.Ok? <==> |buf| % 12 == 0 && |buf| / 12 * 8 <= width * height
    ensures r.Ok? ==>
              && |r.value| == width * height
              && r.value[..|buf| / 12 * 8] == Triples(true, SwapWords(buf))
              && forall k :: |buf| / 12 * 8 <= k < width * height ==> r.value[k] == 0
  {
    hide Triples, SwapWords;
    var out := new nat[width * height](_ => 0);
    var ok := DecodeWordsInto(buf, out);
    r := if ok then Ok(out[..]) else Err(Unreachable);
  }

  method DecodeWordsInto(buf: seq<Byte>, out: array<nat>) returns (ok: bool)
    requires forall k :: 0 <= k < out.Length ==> out[k] == 0
    modifies out
    ensures ok <==> |buf| % 12 == 0 && |buf| / 12 * 8 <= out.Length
    ensures ok ==> out[..|buf| / 12 * 8] == Triples(true, SwapWords(buf))
    ensures ok ==> forall k :: |buf| / 12 * 8 <= k < out.Length ==> out[k] == 0
  {
    hide Triples, SwapWords, EightSamples;
    var i, o := 0, 0;
    ghost var groups := 0;
    NothingSwapped();
    while i < |buf|
      invariant i == 12 * groups <= |buf| && o == 8 * groups <= out.Length
      invariant out[..o] == Triples(true, SwapWords(buf[..i]))
      invariant forall k :: o <= k < out.Length ==> out[k] == 0
      decreases |buf| - i
    {
      if i + 12 > |buf| || o + 8 > out.Length {
        return false;
      }
      NextTwelve(buf, i);
      StoreEight(out, o, buf[i..i + 12]);
      i := i + 12;
      o := o + 8;
      groups := groups + 1;
    }
    assert buf[..i] == buf;
    ok := true;
  }

  /** Stores the samples of twelve bytes from index `o` on. */
  method StoreEight(out: array<nat>, o: nat, b: seq<Byte>)
    requires |b| == 12 && o + 8 <= out.Length
    modifies out
    ensures out[..o + 8] == old(out[..o]) + EightSamples(b)
    ensures forall k :: o + 8 <= k < out.Length ==> out[k] == old(out[k])
  {
    hide ByteAndHalf, HalfAndByte;
    ghost var before := out[..o];
    out[o], out[o + 1] := ByteAndHalf(b[3], b[2]), HalfAndByte(b[2], b[1]);
    out[o + 2], out[o + 3] := ByteAndHalf(b[0], b[7]), HalfAndByte(b[7], b[6]);
    out[o + 4], out[o + 5] := ByteAndHalf(b[5], b[4]), HalfAndByte(b[4], b[11]);
    out[o + 6], out[o + 7] := ByteAndHalf(b[10], b[9]), HalfAndByte(b[9], b[8]);
    ghost var e := EightSamples(b);
    assert out[o] == e[0] && out[o + 1] == e[1] && out[o + 2] == e[2] && out[o + 3] == e[3];
    assert out[o + 4] == e[4] && out[o + 5] == e[5] && out[o + 6] == e[6] && out[o + 7] == e[7];
    assert |out[o..o + 8]| == 8 && out[o..o + 8] == e;
    assert out[..o + 8] == before + out[o..o + 8];
  }

  lemma NothingSwapped()
    ensures Triples(true, SwapWords([])) == []
  {
  }

  lemma MultipleOfTwelve(i: nat)
    requires i % 12 == 0
    ensures i % 4 == 0 && i / 4 * 4 == i && i % 3 == 0
  {
    assert i == 12 * (i / 12);
  }

  lemma NextTwelve(buf: seq<Byte>, i: nat)
    requires i + 12 <= |buf| && i % 12 == 0
    ensures Triples(true, SwapWords(buf[..i + 12]))
         == Triples(true, SwapWords(buf[..i])) + EightSamples(buf[i..i + 12])
  {
    hide Triples, SwapWords, EightSamples;
    MultipleOfTwelve(i);
    assert buf[..i + 12] == buf[..i] + buf[i..i + 12];
    SwapConcat(buf[..i], buf[i..i + 12]);
    TriplesConcat(true, SwapWords(buf[..i]), SwapWords(buf[i..i + 12]));
    EightAreSwapped(buf[i..i + 12]);
  }

  /** Decoding samples packed and then stored with every word reversed gives them back. */
  lemma WordsRoundTrip(values: seq<nat>, groups: nat)
    requires |values| == 8 * groups && TwelveBit(values)
    ensures |SwapWords(PackTriples(true, values))| == 12 * groups
    ensures Triples(true, SwapWords(SwapWords(PackTriples(true, values)))) == values
  {
    hide Triples, SwapWords, PackTriples, TwelveBit;
    GroupCounts(4 * groups, 0);
    var packed := PackTriples(true, values);
    PackedLength(true, values, 4 * groups);
    GroupCounts(groups, 0);
    UnpackUndoesPack(true, values);
    SwapTwice(packed);
  }

  // ----- rows split into two fields

  /** The bytes of the whole groups of one row. */
  function RowBytes(width: nat): nat {
    width / 2 * 3
  }

  /** Where row `q` of a field starts: behind `q * width` packed samples, in whole bytes. */
  function RowStart(width: nat, q: nat): nat {
    q * width * 12 / 8
  }

  /** Where the second field starts, for half of the rows, rounded up, in the first. */
  function InterlacedOffset(width: nat, height: nat): nat {
    ((height + 1) / 2 * width * 3 / 2 / 2048 + 1) * 2048
  }

  lemma RowStartOfEven(width: nat, q: nat)
    requires width % 2 == 0
    ensures RowStart(width, q) == Width(RowBytes(width), q)
  {
    WidthIsProduct(RowBytes(width), q);
    var w := width / 2;
    assert q * width == 2 * (q * w) by { assert width == 2 * w; }
    assert q * (w * 3) == 3 * (q * w);
  }

  lemma RowStartMonotone(width: nat, j: nat, k: nat)
    requires j <= k
    ensures RowStart(width, j) <= RowStart(width, k)
    ensures RowStart(width, 0) == 0
  {
    assert (k - j) * width >= 0;
    assert j * width <= k * width;
  }

  /** The second field starts at the least multiple of 2048 strictly above the bytes of the first. */
  lemma OffsetIsNextPage(width: nat, height: nat)
    ensures var first, offset := RowStart(width, (height + 1) / 2), InterlacedOffset(width, height);
            && 8 * first <= (height + 1) / 2 * width * 12 < 8 * (first + 1)
            && offset % 2048 == 0 && first < offset
            && forall page: nat :: page % 2048 == 0 && first < page ==> offset <= page
    ensures width % 2 == 0 ==> RowStart(width, (height + 1) / 2) == Width(RowBytes(width), (height + 1) / 2)
  {
    if width % 2 == 0 {
      RowStartOfEven(width, (height + 1) / 2);
    }
    NextPage((height + 1) / 2 * width);
  }

  lemma NextPage(samples: nat)
    ensures samples * 12 / 8 == samples * 3 / 2
    ensures var offset := (samples * 3 / 2 / 2048 + 1) * 2048;
            && samples * 3 / 2 < offset <= samples * 3 / 2 + 2048 && offset % 2048 == 0
            && forall page: nat :: page % 2048 == 0 && samples * 3 / 2 < page ==> offset <= page
  {
    var q := samples * 3 / 2 / 2048;
    forall page: nat | page % 2048 == 0 && samples * 3 / 2 < page
      ensures (q + 1) * 2048 <= page
    {
      assert page == page / 2048 * 2048;
    }
  }

  /** Sample `k` of a field of packed big-endian samples; groups missing at its end read as 0. */
  function FieldSample(field: seq<Byte>, k: nat): nat {
    if k < |Triples(true, field)| then Triples(true, field)[k] else 0
  }

  /** Row `q` of a field. */
  function FieldRow(field: seq<Byte>, width: nat, q: nat): (row: seq<nat>)
    ensures |row| == width
  {
    var at := RowStart(width, q);
    seq<nat>(width, c requires 0 <= c < width => if at <= |field| then FieldSample(field[at..], c) else 0)
  }

  function FieldOf(buf: seq<Byte>, width: nat, height: nat, row: nat): seq<Byte>
    requires InterlacedOffset(width, height) <= |buf|
  {
    if row % 2 == 0 then buf else buf[InterlacedOffset(width, height)..]
  }

  /** The first `n` rows of the frame: even rows from one field, odd rows from the other. */
  function WovenRows(buf: seq<Byte>, width: nat, height: nat, n: nat): (rows: seq<nat>)
    requires InterlacedOffset(width, height) <= |buf|
    ensures |rows| == Width(width, n)
  {
    if n == 0 then []
    else WovenRows(buf, width, height, n - 1) + FieldRow(FieldOf(buf, width, height, n - 1), width, (n - 1) / 2)
  }

  /** Every row starts within its field. */
  predicate FieldsInRange(len: nat, width: nat, height: nat) {
    && InterlacedOffset(width, height) <= len
    && (height >= 1 ==> RowStart(width, (height - 1) / 2) <= len)
    && (height >= 2 ==> RowStart(width, height / 2 - 1) <= len - InterlacedOffset(width, height))
  }

  /** Half a group at the end of a row is read only where its field has ended, which is where it has no whole group. */
  predicate HalfGroupsMissing(len: nat, width: nat, height: nat)
    requires InterlacedOffset(width, height) <= len
  {
    && (height >= 1 ==> len < RowBytes(width) + 3)
    && (height >= 2 ==> len - InterlacedOffset(width, height) < RowBytes(width) + 3)
  }

  /** The buffer lengths for which the interlaced decoder stays in range. */
  predicate Decodes(len: nat, width: nat, height: nat) {
    && width > 0
    && FieldsInRange(len, width, height)
    && (width % 2 == 0 || HalfGroupsMissing(len, width, height))
  }

  // ----- the interlaced decoder

  lemma GroupInField(field: seq<Byte>, g: nat)
    ensures 3 * g + 3 <= |field| ==>
              var s := Group(true, field[3 * g], field[3 * g + 1], field[3 * g + 2]);
              FieldSample(field, 2 * g) == s[0] && FieldSample(field, 2 * g + 1) == s[1]
    ensures 3 * g + 3 > |field| ==> forall k :: k >= 2 * g ==> FieldSample(field, k) == 0
  {
    hide Group;
    if 3 * g + 3 <= |field| {
      TriplesAt(true, field, g);
      var t := Triples(true, field);
      assert t[2 * g..2 * g + 2][0] == t[2 * g] && t[2 * g..2 * g + 2][1] == t[2 * g + 1];
    }
  }

  /** Fills one blank row from the field bytes that start where the row does. Writing the second sample of a group
      behind the end of the row stops the program. */
  method FillRow(out: array<nat>, at: nat, width: nat, inb: seq<Byte>) returns (ok: bool)
    requires at + width <= out.Length
    requires forall k :: at <= k < at + width ==> out[k] == 0
    modifies out
    ensures ok <==> width % 2 == 0 || |inb| < RowBytes(width) + 3
    ensures ok ==> forall k :: at <= k < at + width ==> out[k] == FieldSample(inb, k - at)
    ensures forall k :: 0 <= k < at || at + width <= k < out.Length ==> out[k] == old(out[k])
  {
    hide FieldSample, Group;
    var i, o := 0, 0;
    ghost var g := 0;
    while o < width
      invariant i == 3 * g && o == 2 * g <= width
      invariant forall k :: at <= k < at + o ==> out[k] == FieldSample(inb, k - at)
      invariant forall k :: at + o <= k < at + width ==> out[k] == 0
      invariant forall k :: 0 <= k < at || at + width <= k < out.Length ==> out[k] == old(out[k])
      decreases width - o
    {
      GroupInField(inb, g);
      if |inb| - i < 3 {
        return true;
      }
      if o + 1 == width {
        return false;
      }
      var s := Group(true, inb[i], inb[i + 1], inb[i + 2]);
      out[at + o], out[at + o + 1] := s[0], s[1];
      i := i + 3;
      o := o + 2;
      g := g + 1;
    }
    ok := true;
  }

  /** The interlaced decoder, rows one after the other. What stops the program is the error: a frame without columns,
      a row that starts behind its field, half a group behind the end of a row. */
  method DecodeInterlaced(buf: seq<Byte>, width: nat, height: nat) returns (r: Result<seq<nat>>)
    ensures r.Ok? <==> Decodes(|buf|, width, height)
    ensures r.Ok? ==> r.value == WovenRows(buf, width, height, height)
  {
    hide WovenRows, Width, InterlacedOffset, FieldsInRange, HalfGroupsMissing, RowFits;
    var half := (height + 1) / 2;
    var interlacedOffset := (half * width * 3 / 2 / 2048 + 1) * 2048;
    OffsetIs(|buf|, width, height);
    if interlacedOffset > |buf| || width == 0 {
      return Err(Unreachable);
    }
    var interlaced := buf[interlacedOffset..];
    WidthIsProduct(width, height);
    var out := new nat[width * height](_ => 0);
    StartOfWeave(buf, width, height);
    var at := 0;
    for row := 0 to height
      invariant at == Width(width, row) <= out.Length
      invariant out[..at] == WovenRows(buf, width, height, row)
      invariant forall k :: at <= k < out.Length ==> out[k] == 0
      invariant forall q :: 0 <= q < row ==> RowFits(buf, width, height, q)
    {
      NextAt(width, row, height);
      var ok := DecodeRow(buf, interlaced, width, height, row, out, at);
      if !ok {
        RowStops(buf, width, height, row);
        return Err(Unreachable);
      }
      at := at + width;
    }
    AllRowsFit(buf, width, height);
    assert out[..at] == out[..];
    r := Ok(out[..]);
  }

  /** Decodes one row behind those before it. */
  method DecodeRow(buf: seq<Byte>, interlaced: seq<Byte>, width: nat, height: nat, row: nat, out: array<nat>, at: nat)
    returns (ok: bool)
    requires InterlacedOffset(width, height) <= |buf| && interlaced == buf[InterlacedOffset(width, height)..]
    requires at + width <= out.Length && out[..at] == WovenRows(buf, width, height, row)
    requires forall k :: at <= k < out.Length ==> out[k] == 0
    modifies out
    ensures ok <==> RowFits(buf, width, height, row)
    ensures ok ==> out[..at + width] == WovenRows(buf, width, height, row + 1)
    ensures ok ==> forall k :: at + width <= k < out.Length ==> out[k] == 0
  {
    hide WovenRows, FieldRow, InterlacedOffset, RowStart, FieldSample;
    var off := row / 2 * width * 12 / 8;
    RowStartIs(width, row / 2);
    var field := if row % 2 == 0 then buf else interlaced;
    if off > |field| {
      return false;
    }
    ghost var before := out[..at];
    ok := FillRow(out, at, width, field[off..]);
    if ok {
      FilledRow(field, width, row / 2, out[at..at + width]);
      NextWovenRow(buf, width, height, row);
      assert out[..at + width] == before + out[at..at + width];
    }
  }

  /** The row starts within its field and does not end within a group that is there. */
  ghost predicate RowFits(buf: seq<Byte>, width: nat, height: nat, row: nat) {
    && InterlacedOffset(width, height) <= |buf|
    && var field := FieldOf(buf, width, height, row);
       && RowStart(width, row / 2) <= |field|
       && (width % 2 == 0 || |field| - RowStart(width, row / 2) < RowBytes(width) + 3)
  }

  lemma OffsetIs(len: nat, width: nat, height: nat)
    ensures InterlacedOffset(width, height) == ((height + 1) / 2 * width * 3 / 2 / 2048 + 1) * 2048
    ensures FieldsInRange(len, width, height) ==> InterlacedOffset(width, height) <= len
  {
    hide InterlacedOffset;
    assert InterlacedOffset(width, height) == ((height + 1) / 2 * width * 3 / 2 / 2048 + 1) * 2048 by {
      OffsetUnfolded(width, height);
    }
  }

  lemma OffsetUnfolded(width: nat, height: nat)
    ensures InterlacedOffset(width, height) == ((height + 1) / 2 * width * 3 / 2 / 2048 + 1) * 2048
  {
  }

  lemma RowStartIs(width: nat, q: nat)
    ensures RowStart(width, q) == q * width * 12 / 8
  {
  }

  lemma StartOfWeave(buf: seq<Byte>, width: nat, height: nat)
    requires InterlacedOffset(width, height) <= |buf|
    ensures WovenRows(buf, width, height, 0) == [] && Width(width, 0) == 0
  {
  }

  lemma NextWovenRow(buf: seq<Byte>, width: nat, height: nat, row: nat)
    requires InterlacedOffset(width, height) <= |buf|
    ensures WovenRows(buf, width, height, row + 1)
         == WovenRows(buf, width, height, row) + FieldRow(FieldOf(buf, width, height, row), width, row / 2)
  {
    hide InterlacedOffset, FieldRow, FieldOf;
  }

  lemma NextAt(width: nat, row: nat, height: nat)
    requires row < height
    ensures Width(width, row + 1) == Width(width, row) + width <= Width(width, height)
  {
    WidthMonotone(width, row + 1, height);
  }

  /** A filled row is the row of the field. */
  lemma FilledRow(field: seq<Byte>, width: nat, q: nat, filled: seq<nat>)
    requires |filled| == width && RowStart(width, q) <= |field|
    requires forall t :: 0 <= t < width ==> filled[t] == FieldSample(field[RowStart(width, q)..], t)
    ensures filled == FieldRow(field, width, q)
  {
    hide FieldSample, RowStart;
  }

  lemma RowStops(buf: seq<Byte>, width: nat, height: nat, row: nat)
    requires InterlacedOffset(width, height) <= |buf| && row < height
    requires !RowFits(buf, width, height, row)
    ensures !Decodes(|buf|, width, height)
  {
    hide InterlacedOffset, RowStart;
    RowStartMonotone(width, 0, row / 2);
    if row % 2 == 0 {
      RowStartMonotone(width, row / 2, (height - 1) / 2);
    } else {
      RowStartMonotone(width, row / 2, height / 2 - 1);
    }
  }

  lemma AllRowsFit(buf: seq<Byte>, width: nat, height: nat)
    requires InterlacedOffset(width, height) <= |buf| && width > 0
    requires forall q :: 0 <= q < height ==> RowFits(buf, width, height, q)
    ensures Decodes(|buf|, width, height)
  {
    hide InterlacedOffset, RowStart;
    RowStartMonotone(width, 0, 0);
    if height >= 1 {
      assert RowFits(buf, width, height, 0);
      var last := if height % 2 == 1 then height - 1 else height - 2;
      assert last % 2 == 0 && last / 2 == (height - 1) / 2;
      assert RowFits(buf, width, height, last);
    }
    if height >= 2 {
      assert RowFits(buf, width, height, 1);
      var last := if height % 2 == 0 then height - 1 else height - 2;
      assert last % 2 == 1 && last / 2 == height / 2 - 1;
      assert RowFits(buf, width, height, last);
    }
  }

  // ----- weaving undoes splitting

  /** Row `q` of an unpacked field. */
  function Slice(values: seq<nat>, width: nat, q: nat): seq<nat> {
    var at := Width(width, q);
    if at + width <= |values| then values[at..at + width] else []
  }

  /** The first `n` rows of the frame whose even and odd rows these are. */
  function Weave(even: seq<nat>, odd: seq<nat>, width: nat, n: nat): seq<nat> {
    if n == 0 then []
    else Weave(even, odd, width, n - 1) + Slice(if n % 2 == 1 then even else odd, width, (n - 1) / 2)
  }

  /** The samples with those from `kept` on lost. */
  function CutOff(values: seq<nat>, kept: nat): (r: seq<nat>)
    ensures |r| == |values|
  {
    seq<nat>(|values|, k requires 0 <= k < |values| => if k < kept then values[k] else 0)
  }

  lemma {:induction false} WidthScales(n: nat, q: nat)
    ensures Width(n * 3, q) == 3 * Width(n, q)
    ensures Width(2 * n, q) == 2 * Width(n, q)
  {
    if q > 0 {
      WidthScales(n, q - 1);
    }
  }

  /** Starting `g` groups into a field is starting `2 * g` samples into it. */
  lemma FieldSuffix(field: seq<Byte>, g: nat, k: nat)
    requires 3 * g <= |field|
    ensures FieldSample(field[3 * g..], k) == FieldSample(field, 2 * g + k)
  {
    hide Triples;
    assert field == field[..3 * g] + field[3 * g..];
    TriplesConcat(true, field[..3 * g], field[3 * g..]);
  }

  /** Rows of even width are runs of samples of the whole field. */
  lemma EvenFieldRow(field: seq<Byte>, width: nat, q: nat, c: nat)
    requires width % 2 == 0 && c < width
    ensures FieldRow(field, width, q)[c] == FieldSample(field, Width(width, q) + c)
  {
    hide Width, RowStart, Triples;
    RowStartOfEven(width, q);
    WidthScales(width / 2, q);
    var g := Width(width / 2, q);
    if 3 * g <= |field| {
      FieldSuffix(field, g, c);
    }
  }

  lemma {:induction false} PackConcat(big: bool, a: seq<nat>, b: seq<nat>)
    requires |a| % 2 == 0 && |b| % 2 == 0 && TwelveBit(a) && TwelveBit(b)
    ensures TwelveBit(a + b) && PackTriples(big, a + b) == PackTriples(big, a) + PackTriples(big, b)
  {
    hide PackGroup, TwelveBit;
    TwelveBitParts(a, b);
    if a == [] {
      assert a + b == b;
    } else {
      assert a == a[..2] + a[2..];
      TwelveBitParts(a[..2], a[2..]);
      assert (a + b)[2..] == a[2..] + b;
      PackConcat(big, a[2..], b);
    }
  }

  /** Packed samples with bytes missing at the end are read up to the last whole group. */
  lemma PackedPrefix(values: seq<nat>, n: nat, k: nat)
    requires |values| % 2 == 0 && TwelveBit(values) && n <= |PackTriples(true, values)| && k < |values|
    ensures FieldSample(PackTriples(true, values)[..n], k) == CutOff(values, n / 3 * 2)[k]
  {
    hide PackTriples, Triples;
    PrefixReads(values, n);
  }

  lemma PrefixReads(values: seq<nat>, n: nat)
    requires |values| % 2 == 0 && TwelveBit(values) && n <= |PackTriples(true, values)|
    ensures n / 3 * 2 <= |values|
    ensures Triples(true, PackTriples(true, values)[..n]) == values[..n / 3 * 2]
  {
    hide PackTriples, Triples;
    var g, r, k := n / 3, n % 3, |values| / 2;
    assert n == 3 * g + r && |values| == 2 * k;
    PackedLength(true, values, k);
    GroupsRead(values, k, g, r);
  }

  lemma GroupsRead(values: seq<nat>, k: nat, g: nat, r: nat)
    requires |values| == 2 * k && |values| % 2 == 0 && TwelveBit(values) && g <= k && r < 3 && 3 * g + r <= 3 * k
    ensures |PackTriples(true, values)| == 3 * k
    ensures Triples(true, PackTriples(true, values)[..3 * g + r]) == values[..2 * g]
  {
    hide PackTriples, Triples, TwelveBit;
    var a, b := values[..2 * g], values[2 * g..];
    assert a + b == values;
    TwelveBitParts(a, b);
    GroupCounts(g, 0);
    GroupCounts(k - g, 0);
    PackConcat(true, a, b);
    PackedLength(true, values, k);
    PackedLength(true, a, g);
    PackedLength(true, b, k - g);
    var whole, part := PackTriples(true, a), PackTriples(true, b)[..r];
    assert PackTriples(true, values)[..3 * g + r] == whole + part;
    TriplesConcat(true, whole, part);
    NoTriple(part);
    UnpackUndoesPack(true, a);
    assert a + [] == a;
  }

  lemma TwelveBitParts(a: seq<nat>, b: seq<nat>)
    ensures TwelveBit(a + b) <==> TwelveBit(a) && TwelveBit(b)
  {
    if TwelveBit(a + b) {
      forall k | 0 <= k < |a|
        ensures a[k] < 4096
      {
        assert (a + b)[k] < 4096;
      }
      forall k | 0 <= k < |b|
        ensures b[k] < 4096
      {
        assert (a + b)[|a| + k] < 4096;
      }
    }
  }

  lemma NoTriple(part: seq<Byte>)
    requires |part| < 3
    ensures Triples(true, part) == []
  {
  }

  /** Whatever follows packed samples in a field, they are read as they are. */
  lemma PackedStart(values: seq<nat>, rest: seq<Byte>, k: nat)
    requires |values| % 2 == 0 && TwelveBit(values) && k < |values|
    ensures FieldSample(PackTriples(true, values) + rest, k) == values[k]
  {
    hide PackTriples, Triples, TwelveBit;
    PackedLength(true, values, |values| / 2);
    TriplesConcat(true, PackTriples(true, values), rest);
    UnpackUndoesPack(true, values);
  }

  /** A row of a field whose samples are known. */
  lemma KnownFieldRow(field: seq<Byte>, values: seq<nat>, width: nat, q: nat)
    requires width % 2 == 0 && Width(width, q) + width <= |values|
    requires forall k :: 0 <= k < |values| ==> FieldSample(field, k) == values[k]
    ensures FieldRow(field, width, q) == Slice(values, width, q)
  {
    hide FieldRow, FieldSample, Width;
    forall c | 0 <= c < width
      ensures FieldRow(field, width, q)[c] == Slice(values, width, q)[c]
    {
      EvenFieldRow(field, width, q, c);
    }
  }

  /** The two packed fields of a frame, the second on its page. */
  function Fields(even: seq<nat>, gap: seq<Byte>, odd: seq<nat>): seq<Byte>
    requires |even| % 2 == 0 && |odd| % 2 == 0 && TwelveBit(even) && TwelveBit(odd)
  {
    PackTriples(true, even) + gap + PackTriples(true, odd)
  }

  /** The fields of a frame of this size. */
  ghost predicate FieldsOfFrame(even: seq<nat>, gap: seq<Byte>, odd: seq<nat>, width: nat, height: nat) {
    && width % 2 == 0
    && |even| == Width(width, (height + 1) / 2) && |odd| == Width(width, height / 2)
    && |even| % 2 == 0 && |odd| % 2 == 0 && TwelveBit(even) && TwelveBit(odd)
    && |PackTriples(true, even) + gap| == InterlacedOffset(width, height)
  }

  /** Decoding two packed fields of which `n` bytes are there restores all even rows, and the odd rows up to the last
      whole group of three bytes; the odd samples behind it are 0. */
  lemma InterlacedRoundTrip(even: seq<nat>, gap: seq<Byte>, odd: seq<nat>, width: nat, height: nat, n: nat)
    requires FieldsOfFrame(even, gap, odd, width, height)
    requires InterlacedOffset(width, height) <= n <= |Fields(even, gap, odd)|
    ensures var kept := (n - InterlacedOffset(width, height)) / 3 * 2;
            WovenRows(Fields(even, gap, odd)[..n], width, height, height)
            == Weave(even, CutOff(odd, kept), width, height)
  {
    hide PackTriples, InterlacedOffset, FieldSample, CutOff, TwelveBit;
    var first, second, offset := PackTriples(true, even), PackTriples(true, odd), InterlacedOffset(width, height);
    var buf, m := Fields(even, gap, odd)[..n], n - offset;
    assert buf == first + (gap + second[..m]);
    assert buf[offset..] == second[..m];
    forall k | 0 <= k < |even|
      ensures FieldSample(buf, k) == even[k]
    {
      PackedStart(even, gap + second[..m], k);
    }
    forall k | 0 <= k < |odd|
      ensures FieldSample(buf[offset..], k) == CutOff(odd, m / 3 * 2)[k]
    {
      PackedPrefix(odd, m, k);
    }
    WovenIsWeave(buf, even, CutOff(odd, m / 3 * 2), width, height, height);
  }

  lemma {:induction false} WovenIsWeave(buf: seq<Byte>, even: seq<nat>, odd: seq<nat>, width: nat, height: nat, n: nat)
    requires width % 2 == 0 && n <= height && InterlacedOffset(width, height) <= |buf|
    requires |even| == Width(width, (height + 1) / 2) && |odd| == Width(width, height / 2)
    requires forall k :: 0 <= k < |even| ==> FieldSample(buf, k) == even[k]
    requires forall k :: 0 <= k < |odd| ==> FieldSample(buf[InterlacedOffset(width, height)..], k) == odd[k]
    ensures WovenRows(buf, width, height, n) == Weave(even, odd, width, n)
  {
    hide InterlacedOffset, FieldRow, FieldSample, Slice, Width;
    StartOfWeave(buf, width, height);
    if n > 0 {
      WovenIsWeave(buf, even, odd, width, height, n - 1);
      NextWovenRow(buf, width, height, n - 1);
      var q := (n - 1) / 2;
      if n % 2 == 1 {
        NextAt(width, q, (height + 1) / 2);
        KnownFieldRow(buf, even, width, q);
      } else {
        NextAt(width, q, height / 2);
        KnownFieldRow(buf[InterlacedOffset(width, height)..], odd, width, q);
      }
    }
  }

  // ----- a frame determines its fields

  lemma {:induction false} WeaveLength(even: seq<nat>, odd: seq<nat>, width: nat, height: nat, n: nat)
    requires n <= height && |even| == Width(width, (height + 1) / 2) && |odd| == Width(width, height / 2)
    ensures |Weave(even, odd, width, n)| == Width(width, n)
    ensures n > 0 ==> |Slice(if n % 2 == 1 then even else odd, width, (n - 1) / 2)| == width
  {
    hide Width;
    if n == 0 {
      NextAt(width, 0, 1);
      ReadNone([], width);
    } else {
      WeaveLength(even, odd, width, height, n - 1);
      NextAt(width, n - 1, n);
      NextAt(width, (n - 1) / 2, if n % 2 == 1 then (height + 1) / 2 else height / 2);
    }
  }

  /** Sample `c` of row `row` of a woven frame is that of its row in the field of its parity. */
  lemma {:induction false} WeaveAt(even: seq<nat>, odd: seq<nat>, width: nat, height: nat, n: nat, row: nat, c: nat)
    requires row < n <= height && c < width
    requires |even| == Width(width, (height + 1) / 2) && |odd| == Width(width, height / 2)
    ensures Width(width, row) + c < |Weave(even, odd, width, n)|
    ensures Width(width, row / 2) + c < |if row % 2 == 0 then even else odd|
    ensures Weave(even, odd, width, n)[Width(width, row) + c]
         == (if row % 2 == 0 then even else odd)[Width(width, row / 2) + c]
  {
    hide Width, Slice, Weave;
    WeaveLength(even, odd, width, height, n);
    WeaveLength(even, odd, width, height, n - 1);
    WeaveStep(even, odd, width, n);
    NextAt(width, row, n);
    NextAt(width, row / 2, if row % 2 == 0 then (height + 1) / 2 else height / 2);
    if row < n - 1 {
      WeaveAt(even, odd, width, height, n - 1, row, c);
      NextAt(width, row, n - 1);
    } else {
      SliceAt(if row % 2 == 0 then even else odd, width, row / 2, c);
    }
  }

  lemma WeaveStep(even: seq<nat>, odd: seq<nat>, width: nat, n: nat)
    requires n > 0
    ensures Weave(even, odd, width, n)
         == Weave(even, odd, width, n - 1) + Slice(if n % 2 == 1 then even else odd, width, (n - 1) / 2)
  {
    hide Slice;
  }

  lemma SliceAt(values: seq<nat>, width: nat, q: nat, c: nat)
    requires c < width && Width(width, q) + width <= |values|
    ensures |Slice(values, width, q)| == width && Slice(values, width, q)[c] == values[Width(width, q) + c]
  {
    hide Width;
  }

  /** Two frames that are equal have equal odd rows. */
  lemma {:induction false} WeaveRows(even: seq<nat>, odd: seq<nat>, odd': seq<nat>, width: nat, height: nat,
                                     n: nat, q: nat)
    requires 2 * q + 2 <= n <= height
    requires |even| == Width(width, (height + 1) / 2) && |odd| == |odd'| == Width(width, height / 2)
    requires Weave(even, odd, width, n) == Weave(even, odd', width, n)
    ensures Slice(odd, width, q) == Slice(odd', width, q)
  {
    hide Width, Slice;
    WeaveLength(even, odd, width, height, n);
    WeaveLength(even, odd', width, height, n);
    WeaveLength(even, odd, width, height, n - 1);
    WeaveLength(even, odd', width, height, n - 1);
    if 2 * q + 2 == n {
      assert Weave(even, odd, width, n)[Width(width, n - 1)..] == Slice(odd, width, q);
      assert Weave(even, odd', width, n)[Width(width, n - 1)..] == Slice(odd', width, q);
    } else {
      assert Weave(even, odd, width, n)[..Width(width, n - 1)] == Weave(even, odd, width, n - 1);
      assert Weave(even, odd', width, n)[..Width(width, n - 1)] == Weave(even, odd', width, n - 1);
      WeaveRows(even, odd, odd', width, height, n - 1, q);
    }
  }

  lemma WeaveDetermines(even: seq<nat>, odd: seq<nat>, odd': seq<nat>, width: nat, height: nat)
    requires |even| == Width(width, (height + 1) / 2) && |odd| == |odd'| == Width(width, height / 2)
    requires Weave(even, odd, width, height) == Weave(even, odd', width, height)
    ensures odd == odd'
  {
    hide Width, Weave, Div, Mod;
    var rows := height / 2;
    WidthIsProduct(width, rows);
    forall k | 0 <= k < |odd|
      ensures odd[k] == odd'[k]
    {
      assert width > 0 by { assert width == 0 ==> width * rows == 0; }
      Euclid(k, width);
      var q, c := Div(k, width), Mod(k, width);
      RowOfSample(k, q, c, width, rows);
      WidthIsProduct(width, q);
      WeaveRows(even, odd, odd', width, height, height, q);
      NextAt(width, q, rows);
      assert Slice(odd, width, q)[c] == odd[k] && Slice(odd', width, q)[c] == odd'[k];
    }
  }

  lemma RowOfSample(k: nat, q: nat, c: nat, width: nat, rows: nat)
    requires k == q * width + c && c < width && k < width * rows
    ensures q < rows && width * q == q * width
  {
    MultipleFarFromZero(q - rows, width);
    assert (q - rows) * width == q * width - width * rows;
  }

  /** What is left of a frame whose second field is cut off is the frame exactly when only samples of 0 are lost. */
  lemma CutFrameIntactIff(even: seq<nat>, odd: seq<nat>, width: nat, height: nat, kept: nat)
    requires |even| == Width(width, (height + 1) / 2) && |odd| == Width(width, height / 2)
    ensures Weave(even, CutOff(odd, kept), width, height) == Weave(even, odd, width, height)
       <==> forall k :: kept <= k < |odd| ==> odd[k] == 0
  {
    hide Weave, Width;
    if Weave(even, CutOff(odd, kept), width, height) == Weave(even, odd, width, height) {
      WeaveDetermines(even, CutOff(odd, kept), odd, width, height);
      assert forall k :: kept <= k < |odd| ==> odd[k] == CutOff(odd, kept)[k];
    }
    if forall k :: kept <= k < |odd| ==> odd[k] == 0 {
      assert CutOff(odd, kept) == odd;
    }
  }
}
