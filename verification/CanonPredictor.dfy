/** From block entries to samples and back: the carry between blocks and the two-column predictor. */
module CanonPredictor {
  import opened Bits
  import opened CanonBlock

  const MIDDLE := 512

  // ----- the writer's side

  /** The sample two positions to the left, or the middle value at the start of a row. */
  function LeftNeighbour(samples: seq<int>, width: nat, p: nat): int
    requires width > 0 && p < |samples|
  {
    if Mod(p, width) < 2 then MIDDLE else RowHasTwo(p, width); samples[p - 2]
  }

  lemma RowHasTwo(p: nat, width: nat)
    requires width > 0 && Mod(p, width) >= 2
    ensures p >= 2
  {
    hide Mod;
    SmallRemainder(p, width);
  }

  function Residue(samples: seq<int>, width: nat, p: nat): int
    requires width > 0 && p < |samples|
  {
    samples[p] - LeftNeighbour(samples, width, p)
  }

  /** What is stored for sample `p`: its residue, less that of 64 samples before where a block starts. */
  function StoredEntry(samples: seq<int>, width: nat, p: nat): int
    requires width > 0 && p < |samples|
  {
    Residue(samples, width, p) - (if p % BLOCK == 0 && p >= BLOCK then Residue(samples, width, p - BLOCK) else 0)
  }

  function ImageEntries(samples: seq<int>, width: nat): (entries: seq<int>)
    requires width > 0
    ensures |entries| == |samples|
  {
    seq(|samples|, p requires 0 <= p < |samples| => StoredEntry(samples, width, p))
  }

  // ----- the reader's side

  /** The sum of the first entries of blocks 0 to `b`. */
  function Carry(entries: seq<int>, b: nat): int
    requires BLOCK * b < |entries|
  {
    entries[BLOCK * b] + (if b == 0 then 0 else Carry(entries, b - 1))
  }

  function CarriedEntry(entries: seq<int>, p: nat): int
    requires p < |entries|
  {
    if p % BLOCK == 0 then Carry(entries, p / BLOCK) else entries[p]
  }

  /** What the entry at `p` is added to. */
  function Base(entries: seq<int>, width: nat, p: nat): int
    requires width > 0 && p < |entries|
    decreases p, 0
  {
    if Mod(p, width) < 2 then MIDDLE else RowHasTwo(p, width); Sample(entries, width, p - 2)
  }

  function Sample(entries: seq<int>, width: nat, p: nat): int
    requires width > 0 && p < |entries|
    decreases p, 1
  {
    Base(entries, width, p) + CarriedEntry(entries, p)
  }

  /** The samples as the 16-bit numbers that are written out. */
  function DecodedImage(entries: seq<int>, width: nat): (out: seq<nat>)
    requires width > 0
    ensures |out| == |entries|
  {
    seq(|entries|, p requires 0 <= p < |entries| => Sample(entries, width, p) % 0x1_0000)
  }

  // ----- the reader undoes the writer

  lemma {:induction false} CarryUndone(samples: seq<int>, width: nat, b: nat)
    requires width > 0 && BLOCK * b < |samples|
    ensures Carry(ImageEntries(samples, width), b) == Residue(samples, width, BLOCK * b)
  {
    hide Residue;
    if b > 0 {
      CarryUndone(samples, width, b - 1);
    }
  }

  lemma {:induction false} SampleUndone(samples: seq<int>, width: nat, p: nat)
    requires width > 0 && p < |samples|
    ensures Sample(ImageEntries(samples, width), width, p) == samples[p]
    decreases p
  {
    hide Mod;
    if p % BLOCK == 0 {
      CarryUndone(samples, width, p / BLOCK);
    }
    if Mod(p, width) >= 2 {
      RowHasTwo(p, width);
      SampleUndone(samples, width, p - 2);
    }
  }

  /** For every row width, decoding the entries of an image gives the image. */
  lemma PredictorRoundTrip(samples: seq<int>, width: nat)
    requires width > 0
    requires forall p :: 0 <= p < |samples| ==> 0 <= samples[p] < 0x1_0000
    ensures DecodedImage(ImageEntries(samples, width), width) == samples
  {
    hide Sample, ImageEntries;
    forall p | 0 <= p < |samples|
      ensures Sample(ImageEntries(samples, width), width, p) == samples[p]
    {
      SampleUndone(samples, width, p);
    }
  }

  /** The first two samples of a row are stored as their distance from 512, the middle of the 1024 values a sample can
      have: of 10-bit samples this gives the 1024 numbers from -512 to 511. */
  lemma RowStartResidue(samples: seq<int>, width: nat, p: nat)
    requires width > 0 && p < |samples| && p % width < 2
    ensures Residue(samples, width, p) == samples[p] - 512
    ensures 0 <= samples[p] < 1024 <==> -512 <= Residue(samples, width, p) <= 511
  {
  }

  /** What the reader computes, sample by sample: the first two of a row start from 512, the others from the sample two
      to the left; the entry added is the one stored, where a block starts with those of all blocks before. */
  lemma SampleIs(entries: seq<int>, width: nat, p: nat)
    requires width > 0 && p < |entries|
    ensures p % width < 2 ==> Sample(entries, width, p) == 512 + CarriedEntry(entries, p)
    ensures p % width >= 2 ==>
              p >= 2 && Sample(entries, width, p) == Sample(entries, width, p - 2) + CarriedEntry(entries, p)
    ensures p % 64 != 0 ==> CarriedEntry(entries, p) == entries[p]
    ensures p % 64 == 0 ==>
              CarriedEntry(entries, p) == entries[p] + if p >= 64 then CarriedEntry(entries, p - 64) else 0
    ensures DecodedImage(entries, width)[p] == Sample(entries, width, p) % 0x1_0000
  {
    hide Sample, Carry;
    SampleUnfolded(entries, width, p);
    if p % 64 == 0 {
      CarryUnfolded(entries, p / 64);
      assert p >= 64 ==> (p - 64) / 64 == p / 64 - 1;
    }
  }

  lemma SampleUnfolded(entries: seq<int>, width: nat, p: nat)
    requires width > 0 && p < |entries|
    ensures Mod(p, width) == p % width
    ensures Mod(p, width) < 2 ==> Sample(entries, width, p) == 512 + CarriedEntry(entries, p)
    ensures Mod(p, width) >= 2 ==>
              p >= 2 && Sample(entries, width, p) == Sample(entries, width, p - 2) + CarriedEntry(entries, p)
  {
    hide CarriedEntry;
    if Mod(p, width) >= 2 {
      RowHasTwo(p, width);
    }
  }

  lemma CarryUnfolded(entries: seq<int>, b: nat)
    requires BLOCK * b < |entries|
    ensures Carry(entries, b) == entries[BLOCK * b] + if b > 0 then Carry(entries, b - 1) else 0
  {
  }

  /** Entries that are all 0 are an image that is 512 everywhere. */
  lemma {:induction false} ZeroEntries(entries: seq<int>, width: nat, p: nat)
    requires width > 0 && p < |entries| && forall q :: 0 <= q < |entries| ==> entries[q] == 0
    ensures CarriedEntry(entries, p) == 0
    ensures Sample(entries, width, p) == 512 && DecodedImage(entries, width)[p] == 512
    decreases p
  {
    hide Sample, CarriedEntry;
    SampleIs(entries, width, p);
    if p % 64 == 0 && p >= 64 {
      ZeroEntries(entries, width, p - 64);
    }
    if p % width >= 2 {
      ZeroEntries(entries, width, p - 2);
    }
  }

  /** Entries of an image of samples below 1024 are small: below 2047 where a block starts, else below 1024. */
  lemma EntriesAreSmall(samples: seq<int>, width: nat, p: nat)
    requires width > 0 && p < |samples|
    requires forall q :: 0 <= q < |samples| ==> 0 <= samples[q] < 1024
    ensures -2047 < ImageEntries(samples, width)[p] < 2047
    ensures p % BLOCK != 0 ==> -1024 < ImageEntries(samples, width)[p] < 1024
  {
    hide Residue;
    ResidueIsSmall(samples, width, p);
    if p >= BLOCK {
      ResidueIsSmall(samples, width, p - BLOCK);
    }
  }

  lemma ResidueIsSmall(samples: seq<int>, width: nat, p: nat)
    requires width > 0 && p < |samples|
    requires forall q :: 0 <= q < |samples| ==> 0 <= samples[q] < 1024
    ensures -1024 < Residue(samples, width, p) < 1024
  {
    hide Mod;
    if Mod(p, width) >= 2 {
      RowHasTwo(p, width);
    }
  }

  // ----- the running state of the reader

  /** Before position `p`, the two bases hold what the rest of the current row is predicted from. */
  ghost predicate BasesAt(entries: seq<int>, width: nat, p: nat, base: seq<int>)
    requires width > 0 && p <= |entries|
  {
    && |base| == 2
    && (Mod(p, width) != 0 && p < |entries| ==> p > 0 && base[p % 2] == Base(entries, width, p))
    && (Mod(p, width) != 0 ==> p > 0 && base[(p + 1) % 2] == Sample(entries, width, p - 1))
  }

  /** Positions within a row count up from 0. */
  lemma RowStep(p: nat, width: nat)
    requires width > 0
    ensures Mod(p + 1, width) == 0 || Mod(p + 1, width) == Mod(p, width) + 1
    ensures width > 1 && Mod(p, width) == 0 ==> Mod(p + 1, width) == 1
  {
    hide Div, Mod;
    var q, r := Div(p, width), Mod(p, width);
    Euclid(p, width);
    if r + 1 < width {
      DivModUnique(q, width, r + 1);
    } else {
      assert (q + 1) * width == q * width + width;
      DivModUnique(q + 1, width, 0);
    }
  }

  /** One turn of the sample loop: reset at the start of a row, then add the entry to its column's base. */
  lemma BasesStep(entries: seq<int>, width: nat, p: nat, base: seq<int>)
    requires width > 0 && p < |entries|
    requires BasesAt(entries, width, p, base)
    ensures var reset := if Mod(p, width) == 0 then [MIDDLE, MIDDLE] else base;
            var sum := reset[p % 2] + CarriedEntry(entries, p);
            sum == Sample(entries, width, p) && BasesAt(entries, width, p + 1, reset[p % 2 := sum])
  {
    hide CarriedEntry, Mod;
    RowStep(p, width);
    if Mod(p + 1, width) != 0 && Mod(p, width) != 0 && p + 1 < |entries| {
      assert Base(entries, width, p + 1) == Sample(entries, width, p - 1);
    }
  }
}
