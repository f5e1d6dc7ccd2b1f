/** Turning an image by 45 degrees: a scatter of the pixels onto a checkerboard, and a gather that fills the gaps. */
module FujiTurn {
  import opened Bits
  import opened Options

  datatype Rgb = Rgb(r: nat, g: nat, b: nat)

  const BLACK := Rgb(0, 0, 0)

  /** Sizes for which no intermediate result reaches half the range of a 32-bit word. */
  const MAX_SIZE := 0x3000_0000

  type Image = seq<seq<Rgb>>

  ghost predicate Shaped(image: Image, iwide: nat, ihigh: nat) {
    |image| == ihigh && forall row :: 0 <= row < ihigh ==> |image[row]| == iwide
  }

  // ----- 32-bit unsigned arithmetic

  /** A small integer as an unsigned 32-bit word. */
  function Wrap(x: int): nat
    requires -WORD <= x < WORD
  {
    if x < 0 then x + WORD else x
  }

  // ----- which pixel belongs where

  function TargetRow(irow: int, icol: int, owide: nat): int {
    irow + icol - owide + 5
  }

  /** Twice the column in the intermediate image, plus the parity of the row. */
  function TargetColumn(irow: int, icol: int, owide: nat): int {
    icol - irow + owide - 1
  }

  function SourceRow(orow: nat, ocol: nat, owide: nat): int {
    orow / 2 + owide - 3 - ocol
  }

  function SourceColumn(orow: nat, ocol: nat, owide: nat): int {
    (orow + 1) / 2 + ocol - 2
  }

  /** A cell has exactly one source: the parities of row and column fix it. */
  lemma SourceIffTarget(irow: int, icol: int, orow: nat, ocol: nat, owide: nat)
    ensures irow == SourceRow(orow, ocol, owide) && icol == SourceColumn(orow, ocol, owide)
       <==> orow == TargetRow(irow, icol, owide) && 2 * ocol + orow % 2 == TargetColumn(irow, icol, owide)
    ensures orow == TargetRow(irow, icol, owide) && ocol == TargetColumn(irow, icol, owide) / 2
       ==> 2 * ocol + orow % 2 == TargetColumn(irow, icol, owide)
  {
    assert TargetRow(irow, icol, owide) + TargetColumn(irow, icol, owide) == 2 * (icol + 2);
    assert orow % 2 == orow - 2 * (orow / 2);
  }

  /** No two pixels are written to one cell. */
  lemma NoCollision(irow: int, icol: int, irow': int, icol': int, owide: nat)
    requires TargetRow(irow, icol, owide) == TargetRow(irow', icol', owide) >= 0
    requires TargetColumn(irow, icol, owide) / 2 == TargetColumn(irow', icol', owide) / 2 >= 0
    ensures irow == irow' && icol == icol'
  {
    var orow, ocol := TargetRow(irow, icol, owide), TargetColumn(irow, icol, owide) / 2;
    SourceIffTarget(irow, icol, orow, ocol, owide);
    SourceIffTarget(irow', icol', orow, ocol, owide);
  }

  /** The unsigned tests of the scatter accept a pixel exactly when its coordinates lie in the frame. */
  lemma UnsignedTests(irow: nat, icol: nat, owide: nat, ohigh: nat)
    requires irow < MAX_SIZE && icol < MAX_SIZE && owide < MAX_SIZE && ohigh < MAX_SIZE
    ensures Wrap(TargetRow(irow, icol, owide)) < ohigh && Wrap(TargetColumn(irow, icol, owide)) / 2 < owide
       <==> 0 <= TargetRow(irow, icol, owide) < ohigh && 0 <= TargetColumn(irow, icol, owide) < 2 * owide
  {
  }

  // ----- the intermediate image

  /** What a cell holds once the pixels before (`irow`, `icol`) in reading order are scattered. */
  function CellBefore(image: Image, owide: nat, orow: nat, ocol: nat, irow: nat, icol: nat): Rgb {
    var r, c := SourceRow(orow, ocol, owide), SourceColumn(orow, ocol, owide);
    if 0 <= r < |image| && 0 <= c < |image[r]| && (r < irow || (r == irow && c < icol)) then image[r][c] else BLACK
  }

  /** What a cell holds in the end: its source pixel, or black when that lies outside the image. */
  function Cell(image: Image, owide: nat, orow: nat, ocol: nat): Rgb {
    var r, c := SourceRow(orow, ocol, owide), SourceColumn(orow, ocol, owide);
    if 0 <= r < |image| && 0 <= c < |image[r]| then image[r][c] else BLACK
  }

  /** The cell of a pixel holds it. */
  lemma CellOfPixel(image: Image, iwide: nat, ihigh: nat, owide: nat, orow: nat, ocol: nat, irow: nat, icol: nat)
    requires Shaped(image, iwide, ihigh) && irow < ihigh && icol < iwide
    requires orow == irow + icol - owide + 5 && icol - irow + owide - 1 >= 0 && ocol == (icol - irow + owide - 1) / 2
    ensures Cell(image, owide, orow, ocol) == image[irow][icol]
  {
    SourceIffTarget(irow, icol, orow, ocol, owide);
  }

  /** A cell whose pixel would lie outside the image is black. */
  lemma CellOfNone(image: Image, iwide: nat, ihigh: nat, owide: nat, orow: nat, ocol: nat, irow: int, icol: int)
    requires Shaped(image, iwide, ihigh) && !(0 <= irow < ihigh && 0 <= icol < iwide)
    requires orow == irow + icol - owide + 5 && icol - irow + owide - 1 >= 0 && ocol == (icol - irow + owide - 1) / 2
    ensures Cell(image, owide, orow, ocol) == Rgb(0, 0, 0)
  {
    SourceIffTarget(irow, icol, orow, ocol, owide);
  }

  /** Cell number `k` is column `k` modulo the width of its row. */
  ghost predicate MidHolds(mid: seq<Rgb>, image: Image, owide: nat, irow: nat, icol: nat)
    requires owide > 0
  {
    forall k :: 0 <= k < |mid| ==> mid[k] == CellBefore(image, owide, Div(k, owide), Mod(k, owide), irow, icol)
  }

  lemma CellIndex(orow: nat, ocol: nat, owide: nat, ohigh: nat)
    requires ocol < owide && orow < ohigh
    ensures 0 <= orow * owide + ocol < ohigh * owide
    ensures Div(orow * owide + ocol, owide) == orow && Mod(orow * owide + ocol, owide) == ocol
  {
    hide Div, Mod;
    DivModUnique(orow, owide, ocol);
    RowsFit(orow, owide, ohigh);
  }

  lemma RowsFit(orow: nat, owide: nat, ohigh: nat)
    requires orow < ohigh
    ensures 0 <= orow * owide <= ohigh * owide - owide
    ensures (orow + 1) * owide == orow * owide + owide
  {
    var rest := ohigh - 1 - orow;
    assert rest * owide >= 0;
    assert ohigh * owide == (orow + 1 + rest) * owide == orow * owide + owide + rest * owide;
  }

  lemma IndexOfCell(k: nat, owide: nat, ohigh: nat)
    requires owide > 0 && k < ohigh * owide
    ensures k == Div(k, owide) * owide + Mod(k, owide) && Div(k, owide) < ohigh
  {
    hide Div, Mod;
    Euclid(k, owide);
    MultipleFarFromZero(Div(k, owide) - ohigh, owide);
    assert (Div(k, owide) - ohigh) * owide == Div(k, owide) * owide - ohigh * owide;
  }

  /** One more pixel: only its own cell changes, and none when it lies outside the frame. */
  lemma CellStep(image: Image, iwide: nat, ihigh: nat, owide: nat, orow: nat, ocol: nat, irow: nat, icol: nat)
    requires Shaped(image, iwide, ihigh) && irow < ihigh && icol < iwide
    ensures CellBefore(image, owide, orow, ocol, irow, icol + 1)
         == if orow == TargetRow(irow, icol, owide) && 2 * ocol + orow % 2 == TargetColumn(irow, icol, owide)
            then image[irow][icol]
            else CellBefore(image, owide, orow, ocol, irow, icol)
  {
    SourceIffTarget(irow, icol, orow, ocol, owide);
  }

  /** The scatter: every pixel in reading order to its cell, if that lies in the frame. */
  method Scatter(image: Image, iwide: nat, ihigh: nat, owide: nat, ohigh: nat) returns (mid: array<Rgb>)
    requires Shaped(image, iwide, ihigh)
    requires iwide < MAX_SIZE && ihigh < MAX_SIZE && 0 < owide < MAX_SIZE && ohigh < MAX_SIZE
    ensures fresh(mid) && mid.Length == ohigh * owide
    ensures forall k :: 0 <= k < mid.Length ==> mid[k] == Cell(image, owide, Div(k, owide), Mod(k, owide))
  {
    hide Div, Mod, CellBefore, Cell, MidHolds;
    mid := new Rgb[ohigh * owide](_ => BLACK);
    NothingScattered(mid[..], image, owide);
    for irow := 0 to ihigh
      invariant MidHolds(mid[..], image, owide, irow, 0)
    {
      for icol := 0 to iwide
        invariant MidHolds(mid[..], image, owide, irow, icol)
      {
        ScatterPixel(image, iwide, ihigh, owide, ohigh, irow, icol, mid);
      }
      RowDone(mid[..], image, iwide, ihigh, owide, irow);
    }
    AllScattered(mid[..], image, iwide, ihigh, owide);
  }

  method ScatterPixel(image: Image, iwide: nat, ihigh: nat, owide: nat, ohigh: nat, irow: nat, icol: nat, mid: array<Rgb>)
    requires Shaped(image, iwide, ihigh) && irow < ihigh && icol < iwide
    requires iwide < MAX_SIZE && ihigh < MAX_SIZE && 0 < owide < MAX_SIZE && ohigh < MAX_SIZE
    requires mid.Length == ohigh * owide
    requires MidHolds(mid[..], image, owide, irow, icol)
    modifies mid
    ensures MidHolds(mid[..], image, owide, irow, icol + 1)
  {
    hide Div, Mod, CellBefore, MidHolds;
    var orow := Wrap(irow + icol - owide + 5);
    var ocol := Wrap(icol - irow + owide - 1) / 2;
    ghost var before := mid[..];
    UnsignedTests(irow, icol, owide, ohigh);
    if orow < ohigh && ocol < owide {
      CellIndex(orow, ocol, owide, ohigh);
      PixelInFrame(before, image, iwide, ihigh, owide, ohigh, orow, ocol, irow, icol);
      var k := orow * owide + ocol;
      mid[k] := image[irow][icol];
      assert mid[..] == before[k := image[irow][icol]];
    } else {
      PixelOutside(before, image, iwide, ihigh, owide, ohigh, irow, icol);
    }
  }

  lemma PixelInFrame(mid: seq<Rgb>, image: Image, iwide: nat, ihigh: nat, owide: nat, ohigh: nat,
                     orow: nat, ocol: nat, irow: nat, icol: nat)
    requires Shaped(image, iwide, ihigh) && irow < ihigh && icol < iwide
    requires 0 < owide && |mid| == ohigh * owide && orow < ohigh && ocol < owide
    requires orow == TargetRow(irow, icol, owide) && ocol == TargetColumn(irow, icol, owide) / 2
    requires MidHolds(mid, image, owide, irow, icol)
    ensures 0 <= orow * owide + ocol < |mid|
    ensures MidHolds(mid[orow * owide + ocol := image[irow][icol]], image, owide, irow, icol + 1)
  {
    hide Div, Mod, CellBefore, TargetRow, TargetColumn;
    CellIndex(orow, ocol, owide, ohigh);
    var at := orow * owide + ocol;
    var after := mid[at := image[irow][icol]];
    SourceIffTarget(irow, icol, orow, ocol, owide);
    forall k | 0 <= k < |after|
      ensures after[k] == CellBefore(image, owide, Div(k, owide), Mod(k, owide), irow, icol + 1)
    {
      IndexOfCell(k, owide, ohigh);
      CellStep(image, iwide, ihigh, owide, Div(k, owide), Mod(k, owide), irow, icol);
    }
  }

  lemma PixelOutside(mid: seq<Rgb>, image: Image, iwide: nat, ihigh: nat, owide: nat, ohigh: nat, irow: nat, icol: nat)
    requires Shaped(image, iwide, ihigh) && irow < ihigh && icol < iwide
    requires 0 < owide && |mid| == ohigh * owide
    requires !(0 <= TargetRow(irow, icol, owide) < ohigh && 0 <= TargetColumn(irow, icol, owide) < 2 * owide)
    requires MidHolds(mid, image, owide, irow, icol)
    ensures MidHolds(mid, image, owide, irow, icol + 1)
  {
    hide Div, Mod, CellBefore, TargetRow, TargetColumn;
    forall k | 0 <= k < |mid|
      ensures mid[k] == CellBefore(image, owide, Div(k, owide), Mod(k, owide), irow, icol + 1)
    {
      IndexOfCell(k, owide, ohigh);
      CellStep(image, iwide, ihigh, owide, Div(k, owide), Mod(k, owide), irow, icol);
    }
  }

  lemma NothingScattered(mid: seq<Rgb>, image: Image, owide: nat)
    requires owide > 0 && forall k :: 0 <= k < |mid| ==> mid[k] == BLACK
    ensures MidHolds(mid, image, owide, 0, 0)
  {
    hide Div, Mod;
  }

  lemma RowDone(mid: seq<Rgb>, image: Image, iwide: nat, ihigh: nat, owide: nat, irow: nat)
    requires owide > 0 && Shaped(image, iwide, ihigh) && irow < ihigh
    requires MidHolds(mid, image, owide, irow, iwide)
    ensures MidHolds(mid, image, owide, irow + 1, 0)
  {
    hide Div, Mod, SourceRow, SourceColumn;
  }

  lemma AllScattered(mid: seq<Rgb>, image: Image, iwide: nat, ihigh: nat, owide: nat)
    requires owide > 0 && Shaped(image, iwide, ihigh)
    requires MidHolds(mid, image, owide, ihigh, 0)
    ensures forall k :: 0 <= k < |mid| ==> mid[k] == Cell(image, owide, Div(k, owide), Mod(k, owide))
  {
    hide Div, Mod, SourceRow, SourceColumn;
  }

  // ----- the output image

  /** The cell of the intermediate image at row `r` and column `c`. */
  function At(mid: seq<Rgb>, owide: nat, r: int, c: int): Rgb {
    var k := r * owide + c;
    if 0 <= k < |mid| then mid[k] else BLACK
  }

  /** The mean of four channel values, rounded down. */
  function Mean(a: nat, b: nat, c: nat, d: nat): nat {
    (a + b + c + d) / 4
  }

  function MeanRgb(a: Rgb, b: Rgb, c: Rgb, d: Rgb): Rgb {
    Rgb(Mean(a.r, b.r, c.r, d.r), Mean(a.g, b.g, c.g, d.g), Mean(a.b, b.b, c.b, d.b))
  }

  predicate Interior(owide: nat, ohigh: nat, orow: nat, c: nat) {
    1 <= orow && orow + 2 <= ohigh && 1 <= c && c + 2 <= 2 * owide
  }

  /** Column `c` of output row `orow`: a pixel where the parities agree, else the mean of the four around it, or on
      the border what the row buffer still holds from the row above. */
  function OutCell(mid: seq<Rgb>, owide: nat, ohigh: nat, orow: nat, c: nat): Rgb {
    if (orow + c) % 2 == 0 then At(mid, owide, orow, c / 2)
    else if Interior(owide, ohigh, orow, c) then
      MeanRgb(At(mid, owide, orow - 1, c / 2), At(mid, owide, orow, c / 2 - orow % 2),
              At(mid, owide, orow + 1, c / 2), At(mid, owide, orow, c / 2 + 1 - orow % 2))
    else if orow == 0 then BLACK
    else At(mid, owide, orow - 1, c / 2)
  }

  /** The unsigned border tests of the gather accept exactly the interior. */
  lemma UnsignedBorders(owide: nat, ohigh: nat, orow: nat, c: nat)
    requires orow < ohigh < MAX_SIZE && c < 2 * owide && owide < MAX_SIZE
    ensures Wrap(orow - 1) < Wrap(ohigh - 2) && Wrap(c - 1) < Wrap(owide * 2 - 2) <==> Interior(owide, ohigh, orow, c)
  {
  }

  /** The four cells averaged lie inside the intermediate image, in the row above, the same row and the row below. */
  lemma NeighboursInside(owide: nat, ohigh: nat, orow: nat, c: nat)
    requires Interior(owide, ohigh, orow, c) && (orow + c) % 2 == 1
    ensures 0 <= c / 2 < owide && 0 <= c / 2 - orow % 2 < owide && 0 <= c / 2 + 1 - orow % 2 < owide
    ensures 0 <= (orow - 1) * owide + c / 2 < ohigh * owide
    ensures 0 <= (orow + 1) * owide + c / 2 < ohigh * owide
    ensures 0 <= orow * owide + (c / 2 - orow % 2) < ohigh * owide
    ensures 0 <= orow * owide + (c / 2 + 1 - orow % 2) < ohigh * owide
    ensures (orow - 1) * owide == orow * owide - owide && (orow + 1) * owide == orow * owide + owide
  {
    HalfColumns(owide, orow, c);
    RowsFit(orow - 1, owide, ohigh);
    RowsFit(orow, owide, ohigh);
    RowsFit(orow + 1, owide, ohigh);
  }

  /** The index of the left neighbour, where addresses are as wide as the unsigned index or wider: there, the index
      that means -1 stays 2^32 - 1. */
  function LeftIndex(pix: nat, orow: nat, wide: bool): int {
    if wide then pix + Wrap(-(orow % 2)) else pix - orow % 2
  }

  /** The cells the gather can compute. */
  predicate CellSafe(owide: nat, ohigh: nat, wide: bool, orow: nat, c: nat) {
    wide && (orow + c) % 2 == 1 && Interior(owide, ohigh, orow, c) ==> orow % 2 == 0
  }

  /** The frames it can compute. */
  predicate FrameSafe(owide: nat, ohigh: nat, wide: bool) {
    !wide || owide < 2 || ohigh < 3
  }

  /** The left neighbour is taken from inside the intermediate image exactly where addresses are no wider than the
      index, or the row is even. */
  lemma LeftNeighbourInsideIff(owide: nat, ohigh: nat, wide: bool, orow: nat, c: nat)
    requires Interior(owide, ohigh, orow, c) && (orow + c) % 2 == 1 && ohigh * owide <= WORD
    ensures 0 <= LeftIndex(orow * owide + c / 2, orow, wide) < ohigh * owide <==> !wide || orow % 2 == 0
    ensures CellSafe(owide, ohigh, wide, orow, c) <==> !wide || orow % 2 == 0
    ensures LeftIndex(orow * owide + c / 2, orow, wide)
         == orow * owide + c / 2 + if orow % 2 == 0 then 0 else if wide then 0xffff_ffff else -1
  {
    NeighboursInside(owide, ohigh, orow, c);
    RowsFit(orow, owide, ohigh);
  }

  /** All cells of a frame can be computed exactly where addresses are no wider than the index, or the frame has no
      interior cell in an odd row. */
  lemma FrameSafeIff(owide: nat, ohigh: nat, wide: bool)
    ensures FrameSafe(owide, ohigh, wide)
       <==> forall orow: nat, c: nat :: orow < ohigh && c < 2 * owide ==> CellSafe(owide, ohigh, wide, orow, c)
  {
    if !FrameSafe(owide, ohigh, wide) {
      assert !CellSafe(owide, ohigh, wide, 1, 2);
    }
  }

  lemma HalfColumns(owide: nat, orow: nat, c: nat)
    requires 1 <= c && c + 2 <= 2 * owide && (orow + c) % 2 == 1
    ensures 0 <= c / 2 < owide && 0 <= c / 2 - orow % 2 && c / 2 + 1 - orow % 2 < owide
  {
  }

  /** An interpolated cell is the mean of the four output cells beside it, all of which show pixels. */
  lemma MeanOfCellsBeside(mid: seq<Rgb>, owide: nat, ohigh: nat, orow: nat, c: nat)
    requires Interior(owide, ohigh, orow, c) && (orow + c) % 2 == 1
    ensures OutCell(mid, owide, ohigh, orow, c)
         == MeanRgb(OutCell(mid, owide, ohigh, orow - 1, c), OutCell(mid, owide, ohigh, orow, c - 1),
                    OutCell(mid, owide, ohigh, orow + 1, c), OutCell(mid, owide, ohigh, orow, c + 1))
  {
    hide At, MeanRgb;
    SidesOfColumn(orow, c);
  }

  lemma SidesOfColumn(orow: nat, c: nat)
    requires 1 <= orow && 1 <= c && (orow + c) % 2 == 1
    ensures (c - 1) / 2 == c / 2 - orow % 2 && (c + 1) / 2 == c / 2 + 1 - orow % 2
    ensures (orow - 1 + c) % 2 == (orow + 1 + c) % 2 == (orow + (c - 1)) % 2 == (orow + (c + 1)) % 2 == 0
  {
  }

  /** A cell the gather leaves alone shows what the cell above it shows. */
  lemma BorderRepeatsRowAbove(mid: seq<Rgb>, owide: nat, ohigh: nat, orow: nat, c: nat)
    requires (orow + c) % 2 == 1 && !Interior(owide, ohigh, orow, c) && orow > 0
    ensures OutCell(mid, owide, ohigh, orow, c) == OutCell(mid, owide, ohigh, orow - 1, c)
  {
    hide At;
  }

  /** A rounded mean of four lies between the least and the greatest of them. */
  lemma MeanBetween(a: nat, b: nat, c: nat, d: nat, lo: nat, hi: nat)
    requires lo <= a <= hi && lo <= b <= hi && lo <= c <= hi && lo <= d <= hi
    ensures lo <= Mean(a, b, c, d) <= hi
  {
  }

  /** Output row `orow` up to column `n`. */
  ghost predicate RowBuffer(out: seq<Rgb>, mid: seq<Rgb>, owide: nat, ohigh: nat, orow: nat, n: nat) {
    && |out| == 2 * owide
    && (forall c :: 0 <= c < n && c < |out| ==> out[c] == OutCell(mid, owide, ohigh, orow, c))
    && forall c :: n <= c < |out| ==> out[c] == if orow == 0 then BLACK else OutCell(mid, owide, ohigh, orow - 1, c)
  }

  function OutRow(mid: seq<Rgb>, owide: nat, ohigh: nat, orow: nat): (row: seq<Rgb>)
    ensures |row| == 2 * owide
  {
    seq(2 * owide, c requires 0 <= c < 2 * owide => OutCell(mid, owide, ohigh, orow, c))
  }

  /** The gather: each row is filled into one row buffer, which keeps what is not overwritten, and written out. An
      index outside the intermediate image leaves it without result. */
  method Gather(mid: array<Rgb>, owide: nat, ohigh: nat, wide: bool) returns (r: Option<seq<seq<Rgb>>>)
    requires owide < MAX_SIZE && ohigh < MAX_SIZE && mid.Length == ohigh * owide <= WORD
    ensures r.Some? <==> !wide || owide < 2 || ohigh < 3
    ensures r.Some? ==> |r.value| == ohigh
    ensures r.Some? ==> forall orow :: 0 <= orow < ohigh ==> r.value[orow] == OutRow(mid[..], owide, ohigh, orow)
  {
    hide OutCell, CellSafe;
    FrameSafeIff(owide, ohigh, wide);
    var out := new Rgb[2 * owide](_ => BLACK);
    var rows := [];
    for orow := 0 to ohigh
      invariant |rows| == orow
      invariant forall q :: 0 <= q < orow ==> rows[q] == OutRow(mid[..], owide, ohigh, q)
      invariant forall q: nat, c: nat :: q < orow && c < 2 * owide ==> CellSafe(owide, ohigh, wide, q, c)
      invariant RowBuffer(out[..], mid[..], owide, ohigh, orow, 0)
    {
      for ocol := 0 to 2 * owide
        invariant RowBuffer(out[..], mid[..], owide, ohigh, orow, ocol)
        invariant forall c: nat :: c < ocol ==> CellSafe(owide, ohigh, wide, orow, c)
      {
        var ok := GatherCell(mid, owide, ohigh, wide, orow, ocol, out);
        if !ok {
          return None;
        }
      }
      assert out[..] == OutRow(mid[..], owide, ohigh, orow);
      rows := rows + [out[..]];
    }
    r := Some(rows);
  }

  method GatherCell(mid: array<Rgb>, owide: nat, ohigh: nat, wide: bool, orow: nat, ocol: nat, out: array<Rgb>)
    returns (ok: bool)
    requires owide < MAX_SIZE && ohigh < MAX_SIZE && mid.Length == ohigh * owide <= WORD && mid != out
    requires orow < ohigh && ocol < 2 * owide && out.Length == 2 * owide
    requires RowBuffer(out[..], mid[..], owide, ohigh, orow, ocol)
    modifies out
    ensures ok <==> CellSafe(owide, ohigh, wide, orow, ocol)
    ensures ok ==> RowBuffer(out[..], mid[..], owide, ohigh, orow, ocol + 1)
  {
    hide OutCell, RowBuffer, MeanRgb, LeftIndex;
    ghost var before := out[..];
    GatheredCell(before, mid[..], owide, ohigh, orow, ocol);
    RowsFit(orow, owide, ohigh);
    var pix := orow * owide + ocol / 2;
    if (orow + ocol) % 2 == 1 {
      UnsignedBorders(owide, ohigh, orow, ocol);
      if Wrap(orow - 1) < Wrap(ohigh - 2) && Wrap(ocol - 1) < Wrap(owide * 2 - 2) {
        LeftNeighbourInsideIff(owide, ohigh, wide, orow, ocol);
        MeanAt(mid[..], owide, ohigh, orow, ocol, pix);
        var left := LeftIndex(pix, orow, wide);
        if !(0 <= left < mid.Length) {
          return false;
        }
        out[ocol] := MeanRgb(mid[pix - owide], mid[left], mid[pix + owide], mid[pix + 1 - orow % 2]);
      }
    } else {
      PixelAt(mid[..], owide, ohigh, orow, ocol);
      out[ocol] := mid[pix];
    }
    assert out[..] == before[ocol := out[ocol]];
    ok := true;
  }

  lemma PixelAt(mid: seq<Rgb>, owide: nat, ohigh: nat, orow: nat, c: nat)
    requires |mid| == ohigh * owide && orow < ohigh && c < 2 * owide && (orow + c) % 2 == 0
    ensures 0 <= orow * owide + c / 2 < |mid| && mid[orow * owide + c / 2] == OutCell(mid, owide, ohigh, orow, c)
  {
    RowsFit(orow, owide, ohigh);
  }

  lemma MeanAt(mid: seq<Rgb>, owide: nat, ohigh: nat, orow: nat, c: nat, pix: nat)
    requires |mid| == ohigh * owide && Interior(owide, ohigh, orow, c) && (orow + c) % 2 == 1
    requires pix == orow * owide + c / 2
    ensures 0 <= pix - owide && 0 <= pix - orow % 2 && pix + owide < |mid| && pix + 1 - orow % 2 < |mid|
    ensures MeanRgb(mid[pix - owide], mid[pix - orow % 2], mid[pix + owide], mid[pix + 1 - orow % 2])
         == OutCell(mid, owide, ohigh, orow, c)
  {
    hide MeanRgb;
    NeighboursInside(owide, ohigh, orow, c);
  }

  /** The next column of the row buffer: set to its cell, which it already shows where nothing is written. */
  lemma GatheredCell(before: seq<Rgb>, mid: seq<Rgb>, owide: nat, ohigh: nat, orow: nat, c: nat)
    requires c < 2 * owide && RowBuffer(before, mid, owide, ohigh, orow, c)
    ensures |before| == 2 * owide
    ensures RowBuffer(before[c := OutCell(mid, owide, ohigh, orow, c)], mid, owide, ohigh, orow, c + 1)
    ensures (orow + c) % 2 == 1 && !Interior(owide, ohigh, orow, c) ==> before[c] == OutCell(mid, owide, ohigh, orow, c)
  {
    hide At, MeanRgb;
    if (orow + c) % 2 == 1 && !Interior(owide, ohigh, orow, c) && orow > 0 {
      BorderRepeatsRowAbove(mid, owide, ohigh, orow, c);
    }
  }

  /** What the rows show, cell by cell: the pixel where the parities agree; in the interior the mean, channel by
      channel, of the cells above, to the left, below and to the right; on the border the cell above, or black. */
  lemma RowsShow(rows: seq<seq<Rgb>>, mid: seq<Rgb>, owide: nat, ohigh: nat, orow: nat, c: nat)
    requires |mid| == ohigh * owide && |rows| == ohigh && orow < ohigh && c < 2 * owide
    requires forall q :: 0 <= q < ohigh ==> |rows[q]| == 2 * owide
    requires forall q :: 0 <= q < ohigh ==> rows[q] == OutRow(mid, owide, ohigh, q)
    ensures 0 <= orow * owide + c / 2 < |mid|
    ensures (orow + c) % 2 == 0 ==> rows[orow][c] == mid[orow * owide + c / 2]
    ensures (orow + c) % 2 == 1 && 1 <= orow && orow + 2 <= ohigh && 1 <= c && c + 2 <= 2 * owide ==>
              var v, above, left := rows[orow][c], rows[orow - 1][c], rows[orow][c - 1];
              var below, right := rows[orow + 1][c], rows[orow][c + 1];
              && 4 * v.r <= above.r + left.r + below.r + right.r < 4 * v.r + 4
              && 4 * v.g <= above.g + left.g + below.g + right.g < 4 * v.g + 4
              && 4 * v.b <= above.b + left.b + below.b + right.b < 4 * v.b + 4
    ensures (orow + c) % 2 == 1 && !(1 <= orow && orow + 2 <= ohigh && 1 <= c && c + 2 <= 2 * owide) ==>
              rows[orow][c] == if orow == 0 then Rgb(0, 0, 0) else rows[orow - 1][c]
  {
    hide At, OutCell, Mean;
    assert rows[orow] == OutRow(mid, owide, ohigh, orow);
    RowsFit(orow, owide, ohigh);
    if (orow + c) % 2 == 0 {
      PixelAt(mid, owide, ohigh, orow, c);
    } else if Interior(owide, ohigh, orow, c) {
      assert rows[orow - 1] == OutRow(mid, owide, ohigh, orow - 1);
      assert rows[orow + 1] == OutRow(mid, owide, ohigh, orow + 1);
      MeanOfCellsBeside(mid, owide, ohigh, orow, c);
      MeanIsFloor();
    } else if orow == 0 {
      TopBorder(mid, owide, ohigh, c);
    } else {
      assert rows[orow - 1] == OutRow(mid, owide, ohigh, orow - 1);
      BorderRepeatsRowAbove(mid, owide, ohigh, orow, c);
    }
  }

  lemma MeanIsFloor()
    ensures forall a: nat, b: nat, c: nat, d: nat :: 4 * Mean(a, b, c, d) <= a + b + c + d < 4 * Mean(a, b, c, d) + 4
  {
  }

  lemma TopBorder(mid: seq<Rgb>, owide: nat, ohigh: nat, c: nat)
    requires c % 2 == 1
    ensures OutCell(mid, owide, ohigh, 0, c) == Rgb(0, 0, 0)
  {
  }

  // ----- the whole turn

  /** Every pixel whose turned position lies in the output is shown there unchanged. */
  lemma PixelShown(image: Image, iwide: nat, ihigh: nat, owide: nat, ohigh: nat, mid: seq<Rgb>, irow: nat, icol: nat)
    requires Shaped(image, iwide, ihigh) && irow < ihigh && icol < iwide
    requires owide > 0 && |mid| == ohigh * owide
    requires forall k :: 0 <= k < |mid| ==> mid[k] == Cell(image, owide, Div(k, owide), Mod(k, owide))
    requires 0 <= TargetRow(irow, icol, owide) < ohigh && 0 <= TargetColumn(irow, icol, owide) < 2 * owide
    ensures OutCell(mid, owide, ohigh, TargetRow(irow, icol, owide), TargetColumn(irow, icol, owide)) == image[irow][icol]
  {
    hide Div, Mod, OutCell, TargetRow, TargetColumn, SourceRow, SourceColumn;
    var orow, c := TargetRow(irow, icol, owide), TargetColumn(irow, icol, owide);
    TargetParity(irow, icol, owide);
    SourceIffTarget(irow, icol, orow, c / 2, owide);
    CellIndex(orow, c / 2, owide, ohigh);
    PixelAt(mid, owide, ohigh, orow, c);
    assert Cell(image, owide, orow, c / 2) == image[irow][icol];
  }

  lemma TargetParity(irow: nat, icol: nat, owide: nat)
    ensures (TargetRow(irow, icol, owide) + TargetColumn(irow, icol, owide)) % 2 == 0
  {
    assert TargetRow(irow, icol, owide) + TargetColumn(irow, icol, owide) == 2 * (icol + 2);
  }

  /** Scatter and gather together. */
  method Turn(image: Image, iwide: nat, ihigh: nat, owide: nat, ohigh: nat, wide: bool)
    returns (r: Option<seq<seq<Rgb>>>)
    requires Shaped(image, iwide, ihigh)
    requires iwide < MAX_SIZE && ihigh < MAX_SIZE && 0 < owide < MAX_SIZE && ohigh < MAX_SIZE && ohigh * owide <= WORD
    ensures r.Some? <==> !wide || owide < 2 || ohigh < 3
    ensures r.Some? ==> |r.value| == ohigh && forall row :: 0 <= row < ohigh ==> |r.value[row]| == 2 * owide
    ensures r.Some? ==>
              forall irow: nat, icol: nat | irow < ihigh && icol < iwide ::
                var row, c := irow + icol - owide + 5, icol - irow + owide - 1;
                0 <= row < ohigh && 0 <= c < 2 * owide ==> r.value[row][c] == image[irow][icol]
  {
    hide OutCell, Div, Mod, Cell;
    var mid := Scatter(image, iwide, ihigh, owide, ohigh);
    r := Gather(mid, owide, ohigh, wide);
    if r.Some? {
      forall irow: nat, icol: nat | irow < ihigh && icol < iwide
        ensures var row, c := irow + icol - owide + 5, icol - irow + owide - 1;
                0 <= row < ohigh && 0 <= c < 2 * owide ==> r.value[row][c] == image[irow][icol]
      {
        var row, c := irow + icol - owide + 5, icol - irow + owide - 1;
        if 0 <= row < ohigh && 0 <= c < 2 * owide {
          PixelShown(image, iwide, ihigh, owide, ohigh, mid[..], irow, icol);
        }
      }
    }
  }
}
