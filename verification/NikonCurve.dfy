/** The Nikon tone curve: a table built in place from a few knots by linear interpolation. */
module NikonCurve {
  import opened Bits

  const TABLE_SIZE := 0x8000

  /** The bytes behind one of the headers that are not understood. */
  const SKIPPED := 2110

  datatype CurveError = FormatError | NotSupported | ShortRead | IndexOutOfRange

  /** The code table of the samples that the curve is for. */
  datatype Huffman = NoTable | Lossy12Bit | Lossy14Bit | Lossless14Bit

  datatype CurveResult = Built(white: nat, black: nat) | Failed(error: CurveError)

  // ----- what the table holds

  /** The table right after the knots are stored: sample `k` at `k * step`, and 0 elsewhere. */
  function Knot(samples: seq<nat>, step: nat, j: nat): nat
    requires step > 0
  {
    if Mod(j, step) == 0 && Div(j, step) < |samples| then samples[Div(j, step)] else 0
  }

  /** The mean of two values weighted by the distance `t` of `step` from the first, rounded down. */
  function Mix(left: nat, right: nat, step: nat, t: nat): nat
    requires t < step
  {
    ProductIsNat(left, step - t);
    ProductIsNat(right, t);
    Div(left * (step - t) + right * t, step)
  }

  lemma ProductIsNat(a: nat, b: nat)
    ensures a * b >= 0
  {
  }

  lemma RemainderAtMost(x: nat, d: nat)
    requires d > 0
    ensures Mod(x, d) <= x
  {
    Euclid(x, d);
    ProductIsNat(Div(x, d), d);
  }

  /** Floor interpolation between the knots at `step` intervals around `i`. */
  function Interpolated(samples: seq<nat>, step: nat, i: nat): nat
    requires step > 0
  {
    RemainderAtMost(i, step);
    var t := Mod(i, step);
    Mix(Knot(samples, step, i - t), Knot(samples, step, i - t + step), step, t)
  }

  /** The finished table: interpolation below the ceiling, its last value from there on. */
  function Curve(samples: seq<nat>, step: nat, ceiling: nat, i: nat): nat
    requires step > 0 && ceiling > 0
  {
    Interpolated(samples, step, if i < ceiling then i else ceiling - 1)
  }

  function SampleOr0(samples: seq<nat>, k: nat): nat {
    if k < |samples| then samples[k] else 0
  }

  // ----- positions within a step

  /** Every index is `t` past a multiple of the step. */
  lemma StepParts(i: nat, step: nat) returns (k: nat, t: nat)
    requires step > 0
    ensures t < step && i == k * step + t && t == Mod(i, step) && k == Div(i, step)
  {
    Euclid(i, step);
    k, t := Div(i, step), Mod(i, step);
  }

  lemma KnotAt(samples: seq<nat>, step: nat, k: nat)
    requires step > 0
    ensures k * step >= 0
    ensures Knot(samples, step, k * step) == SampleOr0(samples, k)
  {
    hide Div, Mod;
    DivModUnique(k, step, 0);
  }

  /** Between two neighbouring positions the table is their weighted mean, rounded down. */
  lemma BetweenKnots(samples: seq<nat>, step: nat, k: nat, t: nat)
    requires t < step
    ensures k * step + t >= 0
    ensures Interpolated(samples, step, k * step + t) == Mix(SampleOr0(samples, k), SampleOr0(samples, k + 1), step, t)
  {
    hide Knot, Mix, Div, Mod;
    DivModUnique(k, step, t);
    KnotAt(samples, step, k);
    KnotAt(samples, step, k + 1);
    NextMultiple(k, step);
  }

  /** An entry between two positions is the weighted mean of the two samples, rounded down: the greatest number whose
      multiple by the step does not exceed the weighted sum. Behind the last sample there are zeros. */
  lemma EntryIsFloor(samples: seq<nat>, step: nat, k: nat, t: nat)
    requires t < step
    ensures k * step + t >= 0
    ensures var left, right := if k < |samples| then samples[k] else 0, if k + 1 < |samples| then samples[k + 1] else 0;
            var e := Interpolated(samples, step, k * step + t);
            step * e <= left * (step - t) + right * t < step * (e + 1)
  {
    hide Interpolated, Div, Mod;
    BetweenKnots(samples, step, k, t);
    var left, right := SampleOr0(samples, k), SampleOr0(samples, k + 1);
    ProductIsNat(left, step - t);
    ProductIsNat(right, t);
    FloorBounds(left * (step - t) + right * t, step);
  }

  lemma FloorBounds(sum: nat, d: nat)
    requires d > 0
    ensures d * Div(sum, d) <= sum < d * (Div(sum, d) + 1)
  {
    hide Div, Mod;
    Euclid(sum, d);
    assert d * (Div(sum, d) + 1) == Div(sum, d) * d + d;
  }

  /** Samples on a straight line through 0 give that line. */
  lemma LineKept(samples: seq<nat>, step: nat, slope: nat, k: nat, t: nat)
    requires t < step && k + 1 < |samples| && samples[k] == k * step * slope && samples[k + 1] == (k + 1) * step * slope
    ensures k * step + t >= 0
    ensures Interpolated(samples, step, k * step + t) == (k * step + t) * slope
  {
    hide Interpolated;
    EntryIsFloor(samples, step, k, t);
    var at := k * step;
    var e, v := Interpolated(samples, step, at + t), (at + t) * slope;
    LineSum(at, step, slope, t, k);
    assert step * e <= step * v < step * (e + 1);
    FloorUnique(step, e, v);
  }

  lemma LineSum(at: int, step: int, slope: int, t: int, k: int)
    requires at == k * step
    ensures at * slope * (step - t) + (k + 1) * step * slope * t == step * ((at + t) * slope)
  {
    assert (k + 1) * step * slope == at * slope + step * slope;
    var x, y := at * slope, step * slope;
    assert x * (step - t) + (x + y) * t == x * step + y * t;
    assert step * ((at + t) * slope) == step * x + step * (t * slope);
    assert y * t == step * (t * slope);
  }

  lemma FloorUnique(step: nat, e: nat, v: nat)
    requires step > 0 && step * e <= step * v < step * (e + 1)
    ensures e == v
  {
    MultipleFarFromZero(e - v, step);
    MultipleFarFromZero(v - e - 1, step);
    assert (e - v) * step == step * e - step * v;
    assert (v - e - 1) * step == step * v - step * (e + 1);
  }

  lemma NextMultiple(k: int, step: int)
    ensures (k + 1) * step == k * step + step
  {
  }

  lemma MixBetween(left: nat, right: nat, step: nat, t: nat)
    requires t < step
    ensures var m := Mix(left, right, step, t);
            && (left <= right ==> left <= m <= right)
            && (right <= left ==> right <= m <= left)
            && (t == 0 ==> m == left)
  {
    hide Div, Mod;
    ProductIsNat(left, step - t);
    ProductIsNat(right, t);
    var sum := left * (step - t) + right * t;
    WeightedSum(left, right, step, t);
    if left <= right {
      ProductIsNat(right - left, t);
      ProductIsNat(right - left, step - t);
      Quotient(sum, step, left, right);
    } else {
      ProductIsNat(left - right, t);
      ProductIsNat(left - right, step - t);
      Quotient(sum, step, right, left);
      if t == 0 {
        Quotient(sum, step, left, left);
      }
    }
  }

  lemma WeightedSum(left: int, right: int, step: int, t: int)
    ensures left * (step - t) + right * t == left * step + (right - left) * t
    ensures left * (step - t) + right * t == right * step - (right - left) * (step - t)
    ensures (left - right) * t == -((right - left) * t)
    ensures (left - right) * (step - t) == -((right - left) * (step - t))
    ensures t == 0 ==> (right - left) * t == 0
  {
  }

  lemma Quotient(sum: nat, d: nat, lo: nat, hi: nat)
    requires d > 0 && lo * d <= sum <= hi * d
    ensures lo <= Div(sum, d) <= hi
    ensures sum == lo * d ==> Div(sum, d) == lo
  {
    hide Div, Mod;
    Euclid(sum, d);
    var q := Div(sum, d);
    MultipleFarFromZero(q - hi, d);
    MultipleFarFromZero(lo - q, d);
    MinusTimes(q, hi, d);
    MinusTimes(lo, q, d);
    if sum == lo * d {
      DivModUnique(lo, d, 0);
    }
  }

  lemma MinusTimes(a: int, b: int, d: int)
    ensures (a - b) * d == a * d - b * d
  {
  }

  /** No knot is changed by the interpolation. */
  lemma KnotsKept(samples: seq<nat>, step: nat, k: nat)
    requires step > 0 && k < |samples|
    ensures k * step >= 0
    ensures Interpolated(samples, step, k * step) == samples[k]
  {
    hide Interpolated, Mix;
    BetweenKnots(samples, step, k, 0);
    MixBetween(SampleOr0(samples, k), SampleOr0(samples, k + 1), step, 0);
    assert k * step + 0 == k * step;
  }

  ghost predicate Words(samples: seq<nat>) {
    forall k :: 0 <= k < |samples| ==> samples[k] < 0x1_0000
  }

  /** Values stay below 2^16: the narrowing cast loses nothing. */
  lemma NeverTruncated(samples: seq<nat>, step: nat, i: nat)
    requires step > 0 && Words(samples)
    ensures Interpolated(samples, step, i) < 0x1_0000
  {
    hide Interpolated, Mix, Div, Mod;
    var k, t := StepParts(i, step);
    BetweenKnots(samples, step, k, t);
    MixBetween(SampleOr0(samples, k), SampleOr0(samples, k + 1), step, t);
  }

  // ----- monotone curves

  ghost predicate Nondecreasing(samples: seq<nat>) {
    forall j, k :: 0 <= j < k < |samples| ==> samples[j] <= samples[k]
  }

  lemma MixMonotone(left: nat, right: nat, step: nat, t: nat)
    requires t + 1 < step && left <= right
    ensures Mix(left, right, step, t) <= Mix(left, right, step, t + 1)
  {
    hide Div, Mod;
    ProductIsNat(left, step - t);
    ProductIsNat(right, t);
    ProductIsNat(left, step - (t + 1));
    ProductIsNat(right, t + 1);
    var a, b := left * (step - t) + right * t, left * (step - (t + 1)) + right * (t + 1);
    OneFurther(left, right, step, t);
    QuotientMonotone(a, b, step);
  }

  lemma OneFurther(left: int, right: int, step: int, t: int)
    ensures left * (step - (t + 1)) == left * (step - t) - left
    ensures right * (t + 1) == right * t + right
  {
  }

  lemma QuotientMonotone(a: nat, b: nat, d: nat)
    requires d > 0 && a <= b
    ensures Div(a, d) <= Div(b, d)
  {
    hide Div, Mod;
    Euclid(a, d);
    Euclid(b, d);
    MultipleFarFromZero(Div(a, d) - Div(b, d), d);
    MinusTimes(Div(a, d), Div(b, d), d);
  }

  /** Up to the last knot the table does not decrease. */
  lemma RisesToLastKnot(samples: seq<nat>, step: nat, i: nat)
    requires step > 0 && Nondecreasing(samples)
    requires |samples| > 0 && i < (|samples| - 1) * step
    ensures Interpolated(samples, step, i) <= Interpolated(samples, step, i + 1)
  {
    hide Interpolated, Mix, Div, Mod;
    var k, t := StepParts(i, step);
    InsideKnots(k, step, t, |samples| - 1);
    BetweenKnots(samples, step, k, t);
    if t + 1 < step {
      BetweenKnots(samples, step, k, t + 1);
      MixMonotone(samples[k], samples[k + 1], step, t);
    } else {
      MixBetween(samples[k], samples[k + 1], step, t);
      KnotsKept(samples, step, k + 1);
      NextMultiple(k, step);
    }
  }

  lemma InsideKnots(k: nat, step: nat, t: nat, last: nat)
    requires t < step && k * step + t < last * step
    ensures k < last
  {
    MultipleFarFromZero(k - last, step);
    MinusTimes(k, last, step);
  }

  /** Just behind the last knot the table falls, since what follows it is 0. */
  lemma FallsBehindLastKnot(samples: seq<nat>, step: nat)
    requires step > 0 && |samples| > 0 && samples[|samples| - 1] > 0
    ensures (|samples| - 1) * step >= 0
    ensures Interpolated(samples, step, (|samples| - 1) * step + 1) < samples[|samples| - 1]
  {
    hide Interpolated, Mix, Div, Mod;
    var last, v := |samples| - 1, samples[|samples| - 1];
    ProductIsNat(last, step);
    if step == 1 {
      BetweenKnots(samples, step, last + 1, 0);
      MixBetween(0, 0, step, 0);
      NextMultiple(last, step);
    } else {
      BetweenKnots(samples, step, last, 1);
      MixFalls(v, step);
    }
  }

  lemma MixFalls(v: nat, step: nat)
    requires step > 1 && v > 0
    ensures Mix(v, 0, step, 1) < v
  {
    hide Div, Mod;
    ProductIsNat(v, step - 1);
    assert v * (step - 1) == v * step - v;
    BelowMultiple(v * (step - 1), step, v);
  }

  lemma BelowMultiple(sum: nat, d: nat, v: nat)
    requires d > 0 && sum < v * d
    ensures Div(sum, d) < v
  {
    hide Div, Mod;
    Euclid(sum, d);
    MultipleFarFromZero(Div(sum, d) - v, d);
    MinusTimes(Div(sum, d), v, d);
  }

  /** Behind a last knot of 0 everything is 0. */
  lemma ZeroBehindLastKnot(samples: seq<nat>, step: nat, i: nat)
    requires step > 0 && |samples| > 0 && samples[|samples| - 1] == 0 && i >= (|samples| - 1) * step
    ensures Interpolated(samples, step, i) == 0
  {
    hide Interpolated, Mix, Div, Mod;
    var last := |samples| - 1;
    var k, t := StepParts(i, step);
    NotBefore(k, step, t, last);
    BetweenKnots(samples, step, k, t);
    MixBetween(0, 0, step, t);
  }

  lemma NotBefore(k: nat, step: nat, t: nat, last: nat)
    requires t < step && k * step + t >= last * step
    ensures k >= last
  {
    MultipleFarFromZero(k - last, step);
    MinusTimes(k, last, step);
  }

  ghost predicate CurveRises(samples: seq<nat>, step: nat, ceiling: nat)
    requires step > 0 && ceiling > 0
  {
    forall i: nat :: Curve(samples, step, ceiling, i) <= Curve(samples, step, ceiling, i + 1)
  }

  /** For nondecreasing samples the whole table is nondecreasing exactly when at most one entry below the ceiling
      lies at or behind the last knot, or the last sample is 0. */
  lemma CurveRisesIff(samples: seq<nat>, step: nat, ceiling: nat)
    requires step > 0 && ceiling > 0 && |samples| > 0 && Nondecreasing(samples)
    ensures CurveRises(samples, step, ceiling)
       <==> ceiling <= (|samples| - 1) * step + 1 || samples[|samples| - 1] == 0
  {
    hide Interpolated;
    var last := |samples| - 1;
    ProductIsNat(last, step);
    if ceiling <= last * step + 1 || samples[last] == 0 {
      forall i: nat
        ensures Curve(samples, step, ceiling, i) <= Curve(samples, step, ceiling, i + 1)
      {
        if i + 1 < ceiling {
          if i < last * step {
            RisesToLastKnot(samples, step, i);
          } else {
            ZeroBehindLastKnot(samples, step, i);
          }
        }
      }
    } else {
      var i := last * step;
      KnotsKept(samples, step, last);
      FallsBehindLastKnot(samples, step);
      assert Curve(samples, step, ceiling, i) > Curve(samples, step, ceiling, i + 1);
    }
  }

  // ----- building the table

  lemma KnotOfNextSample(samples: seq<nat>, step: nat, i: nat, j: nat)
    requires step > 0 && i < |samples|
    ensures i * step >= 0
    ensures Knot(samples[..i + 1], step, j) == if j == i * step then samples[i] else Knot(samples[..i], step, j)
  {
    hide Div, Mod;
    ProductIsNat(i, step);
    DivModUnique(i, step, 0);
    Euclid(j, step);
  }

  lemma NoKnots(step: nat, j: nat)
    requires step > 0
    ensures Knot([], step, j) == 0
  {
  }

  /** At a multiple of the step, knot and interpolation are the same, whether or not there is a sample. */
  lemma PositionsKept(samples: seq<nat>, step: nat, i: nat)
    requires step > 0
    ensures var j := (RemainderAtMost(i, step); i - Mod(i, step));
            Interpolated(samples, step, j) == Knot(samples, step, j)
  {
    hide Interpolated, Knot, Mix, Div, Mod;
    RemainderAtMost(i, step);
    var k, t := StepParts(i, step);
    KnotAt(samples, step, k);
    BetweenKnots(samples, step, k, 0);
    MixBetween(SampleOr0(samples, k), SampleOr0(samples, k + 1), step, 0);
    assert k * step + 0 == k * step;
  }

  /** A table the size of the decoder's, all zero at first. */
  class CompressionInfo {
    var huffman: Huffman
    var vpred: seq<nat>
    const curve: array<nat>

    constructor ()
      ensures fresh(curve) && curve.Length == TABLE_SIZE && vpred == [0, 0, 0, 0] && huffman == NoTable
      ensures forall i :: 0 <= i < TABLE_SIZE ==> curve[i] == 0
    {
      huffman := NoTable;
      vpred := [0, 0, 0, 0];
      curve := new nat[TABLE_SIZE](_ => 0);
    }

    /** Stores the samples `step` entries apart. */
    method StoreKnots(samples: seq<nat>, step: nat)
      requires step > 0 && curve.Length == TABLE_SIZE
      requires forall k :: 0 <= k < |samples| ==> k * step < TABLE_SIZE
      requires forall i :: 0 <= i < TABLE_SIZE ==> curve[i] == 0
      modifies curve
      ensures forall j :: 0 <= j < TABLE_SIZE ==> curve[j] == Knot(samples, step, j)
    {
      hide Knot;
      forall j | 0 <= j < TABLE_SIZE
        ensures Knot(samples[..0], step, j) == 0
      {
        NoKnots(step, j);
      }
      for i := 0 to |samples|
        invariant forall j :: 0 <= j < TABLE_SIZE ==> curve[j] == Knot(samples[..i], step, j)
      {
        ProductIsNat(i, step);
        var at := i * step;
        ghost var before := curve[..];
        curve[at] := samples[i];
        forall j | 0 <= j < TABLE_SIZE
          ensures curve[j] == Knot(samples[..i + 1], step, j)
        {
          assert before[j] == Knot(samples[..i], step, j);
          KnotOfNextSample(samples, step, i, j);
        }
      }
      assert samples[..|samples|] == samples;
    }

    /** Replaces the entries below the ceiling by the mean of the knots around them, in place. */
    method Interpolate(ghost samples: seq<nat>, step: nat, ceiling: nat)
      requires 0 < step <= ceiling <= 0x4000 && curve.Length == TABLE_SIZE && Words(samples)
      requires forall j :: 0 <= j < TABLE_SIZE ==> curve[j] == Knot(samples, step, j)
      modifies curve
      ensures forall j :: 0 <= j < ceiling ==> curve[j] == Interpolated(samples, step, j)
    {
      hide Knot, Interpolated, Mix, Mod, Div, Words;
      for i := 0 to ceiling
        invariant forall j :: 0 <= j < i ==> curve[j] == Interpolated(samples, step, j)
        invariant forall j :: i <= j < TABLE_SIZE ==> curve[j] == Knot(samples, step, j)
      {
        RemainderAtMost(i, step);
        PositionsKept(samples, step, i);
        NeverTruncated(samples, step, i);
        InterpolatedIs(samples, step, i);
        var t := Mod(i, step);
        var value := Mix(curve[i - t], curve[i - t + step], step, t);
        curve[i] := value % 0x1_0000;
      }
    }

    lemma InterpolatedIs(samples: seq<nat>, step: nat, i: nat)
      requires step > 0
      ensures Mod(i, step) <= i
      ensures Interpolated(samples, step, i)
           == Mix(Knot(samples, step, i - Mod(i, step)), Knot(samples, step, i - Mod(i, step) + step), step, Mod(i, step))
    {
      hide Knot, Mix, Div, Mod;
      RemainderAtMost(i, step);
    }

    /** Copies a table given entry by entry. */
    method CopyEntries(entries: seq<nat>)
      requires |entries| <= TABLE_SIZE == curve.Length
      modifies curve
      ensures forall j :: 0 <= j < |entries| ==> curve[j] == entries[j]
    {
      for i := 0 to |entries|
        invariant forall j :: 0 <= j < i ==> curve[j] == entries[j]
      {
        curve[i] := entries[i];
      }
    }

    /** The last entry below the ceiling is repeated to the end of the table. */
    method FillTail(ceiling: nat)
      requires 0 < ceiling <= TABLE_SIZE && curve.Length == TABLE_SIZE
      modifies curve
      ensures forall j :: 0 <= j < ceiling ==> curve[j] == old(curve[j])
      ensures forall j :: ceiling <= j < TABLE_SIZE ==> curve[j] == old(curve[ceiling - 1])
    {
      var white := curve[ceiling - 1];
      for i := ceiling to TABLE_SIZE
        invariant forall j :: 0 <= j < ceiling ==> curve[j] == old(curve[j])
        invariant forall j :: ceiling <= j < i ==> curve[j] == white
      {
        curve[i] := white;
      }
    }
  }

  // ----- which table is built

  /** What the header and the words behind it ask for. */
  datatype Plan =
    | Refuse(error: CurveError)
    | FromKnots(knots: seq<nat>, step: nat, ceiling: nat)
    | FromTable(entries: seq<nat>)
    | AllZero

  function Ceiling(bpc: nat): nat {
    if bpc == 12 then 0x1000 else 0x4000
  }

  /** The words behind the two header bytes and behind the 2110 bytes that one header skips. */
  function Body(header0: nat, words: seq<nat>): seq<nat> {
    if header0 != 0x49 then words else if |words| < SKIPPED / 2 then [] else words[SKIPPED / 2..]
  }

  function HuffmanFor(header0: nat, bpc: nat): Huffman {
    if header0 == 0x44 || header0 == 0x49 then
      if bpc == 12 then Lossy12Bit else if bpc == 14 then Lossy14Bit else NoTable
    else if header0 == 0x46 && bpc == 14 then Lossless14Bit
    else NoTable
  }

  function PlanFor(header0: nat, header1: nat, bpc: nat, words: seq<nat>): Plan {
    var input := Body(header0, words);
    if |input| < 4 then Refuse(ShortRead)
    else if header0 == 0x46 && bpc == 12 then Refuse(NotSupported)
    else if HuffmanFor(header0, bpc) == NoTable then Refuse(FormatError)
    else
      var nelems := if |input| > 4 then input[4] else 0;
      var step := if nelems > 1 then Div(Ceiling(bpc), nelems - 1) else 0;
      if header0 == 0x44 && header1 == 0x20 && step > 0 then
        if |input| < 5 + nelems then Refuse(ShortRead) else FromKnots(input[5..5 + nelems], step, Ceiling(bpc))
      else if header0 != 0x46 && nelems <= 0x4001 then
        if |input| < 5 + nelems && nelems > 0 then Refuse(ShortRead)
        else if nelems == 0 then Refuse(IndexOutOfRange)
        else FromTable(input[5..5 + nelems])
      else AllZero
  }

  /** Entry `j` of the finished table. */
  function PlannedEntry(plan: Plan, j: nat): nat
    requires plan.FromKnots? ==> plan.step > 0 && plan.ceiling > 0
  {
    match plan
    case FromKnots(knots, step, ceiling) => Curve(knots, step, ceiling, j)
    case FromTable(entries) => if j < |entries| then entries[j] else if |entries| > 0 then entries[|entries| - 1] else 0
    case _ => 0
  }

  /** The steps of a plan lie within the table, and its knots reach at most the ceiling. */
  lemma PlanInRange(header0: nat, header1: nat, bpc: nat, words: seq<nat>)
    ensures var plan := PlanFor(header0, header1, bpc, words);
            && (plan.FromKnots? ==>
                  && 0 < plan.step <= plan.ceiling <= 0x4000 && |plan.knots| > 1
                  && (|plan.knots| - 1) * plan.step <= plan.ceiling
                  && forall k :: 0 <= k < |plan.knots| ==> k * plan.step < TABLE_SIZE)
            && (plan.FromTable? ==> 0 < |plan.entries| <= 0x4001)
  {
    hide Div, Mod, Body;
    var plan := PlanFor(header0, header1, bpc, words);
    if plan.FromKnots? {
      KnotsInRange(|plan.knots| - 1, plan.step, plan.ceiling);
    }
  }

  lemma KnotsInRange(last: nat, step: nat, ceiling: nat)
    requires last > 0 && step == Div(ceiling, last)
    ensures last * step <= ceiling && step <= ceiling
    ensures forall k :: 0 <= k <= last ==> k * step <= ceiling
  {
    hide Div, Mod;
    Euclid(ceiling, last);
    assert last * step == step * last;
    forall k | 0 <= k <= last
      ensures k * step <= ceiling
    {
      ProductIsNat(last - k, step);
      MinusTimes(last, k, step);
    }
    assert 1 * step <= ceiling;
  }

  /** A header with nondecreasing samples gives a nondecreasing table exactly when the steps between the samples leave
      at most one entry of the range over, or the last sample is 0. */
  lemma HeaderCurveRisesIff(header0: nat, header1: nat, bpc: nat, words: seq<nat>)
    requires var plan := PlanFor(header0, header1, bpc, words); plan.FromKnots? && Nondecreasing(plan.knots)
    ensures var plan := PlanFor(header0, header1, bpc, words);
            var nelems := Body(header0, words)[4];
            && nelems > 1 && |plan.knots| == nelems && plan.step > 0 && plan.ceiling == Ceiling(bpc)
            && (CurveRises(plan.knots, plan.step, plan.ceiling)
                <==> Mod(Ceiling(bpc), nelems - 1) <= 1 || plan.knots[nelems - 1] == 0)
  {
    hide Div, Mod, CurveRises, Nondecreasing, Body, Ceiling;
    PlanInRange(header0, header1, bpc, words);
    var plan := PlanFor(header0, header1, bpc, words);
    var last, ceiling := |plan.knots| - 1, Ceiling(bpc);
    CurveRisesIff(plan.knots, plan.step, plan.ceiling);
    Euclid(ceiling, last);
    assert plan.step * last == last * plan.step;
  }

  // ----- what headers ask for

  /** Headers that are refused, with which error; the first reason counts. */
  lemma RefusedHeaders(header0: nat, header1: nat, bpc: nat, words: seq<nat>)
    ensures |words| < (if header0 == 0x49 then 1059 else 4) ==>
              PlanFor(header0, header1, bpc, words) == Refuse(ShortRead)
    ensures |words| >= 4 && header0 == 0x46 && bpc == 12 ==>
              PlanFor(header0, header1, bpc, words) == Refuse(NotSupported)
    ensures |words| >= 4 && header0 != 0x44 && header0 != 0x46 && header0 != 0x49 ==>
              PlanFor(header0, header1, bpc, words) == Refuse(FormatError)
    ensures |words| >= 1059 && bpc != 12 && bpc != 14 ==>
              PlanFor(header0, header1, bpc, words) == Refuse(FormatError)
  {
    hide Div;
  }

  /** The code table of a header that is accepted. */
  lemma HuffmanCases(header0: nat, bpc: nat)
    ensures header0 == 0x44 || header0 == 0x49 ==>
              HuffmanFor(header0, 12) == Lossy12Bit && HuffmanFor(header0, 14) == Lossy14Bit
    ensures HuffmanFor(0x46, 14) == Lossless14Bit && HuffmanFor(0x46, 12) == NoTable
    ensures (header0 != 0x44 && header0 != 0x46 && header0 != 0x49) || (bpc != 12 && bpc != 14) ==>
              HuffmanFor(header0, bpc) == NoTable
  {
  }

  /** The header with knots: as many 16-bit samples as announced, spread over the 4096 or 16384 values of the depth. */
  lemma KnotHeader(bpc: nat, words: seq<nat>)
    requires (bpc == 12 || bpc == 14) && |words| >= 5 && 1 < words[4] <= (if bpc == 12 then 4097 else 16385)
    ensures var n, range := words[4], if bpc == 12 then 4096 else 16384;
            PlanFor(0x44, 0x20, bpc, words)
            == if |words| < 5 + n then Refuse(ShortRead) else FromKnots(words[5..5 + n], range / (n - 1), range)
  {
    hide Mod;
    var n, range := words[4], if bpc == 12 then 4096 else 16384;
    assert Div(range, n - 1) > 0 by { StepPositive(range, n - 1); }
  }

  lemma StepPositive(range: nat, d: nat)
    requires 0 < d <= range
    ensures Div(range, d) > 0
  {
    hide Div, Mod;
    Euclid(range, d);
  }

  /** Every entry of the table that knots give: the rounded means below the range, the last of them from there on. */
  lemma KnotTable(knots: seq<nat>, step: nat, range: nat, k: nat, t: nat)
    requires t < step && range > 0
    ensures var j := (ProductIsNat(k, step); k * step + t);
            var left, right := if k < |knots| then knots[k] else 0, if k + 1 < |knots| then knots[k + 1] else 0;
            var e := PlannedEntry(FromKnots(knots, step, range), j);
            && (j < range ==> step * e <= left * (step - t) + right * t < step * (e + 1))
            && (j >= range ==> e == PlannedEntry(FromKnots(knots, step, range), range - 1))
  {
    hide Interpolated;
    EntryIsFloor(knots, step, k, t);
  }

  lemma StepZero(range: nat, d: nat)
    requires range < d
    ensures Div(range, d) == 0
  {
    hide Div, Mod;
    DivModUnique(0, d, range);
  }

  /** Headers with a table, also in place of knots that are too few or too many: entry by entry, the last one repeated;
      behind 2110 bytes for one of them. */
  lemma TableHeader(header0: nat, header1: nat, bpc: nat, words: seq<nat>, j: nat)
    requires (bpc == 12 || bpc == 14) && |words| >= (if header0 == 0x49 then 1060 else 5)
    requires
      || header0 == 0x49
      || (header0 == 0x44 && (header1 != 0x20 || words[4] <= 1 || words[4] > (if bpc == 12 then 4097 else 16385)))
    ensures var body := if header0 == 0x49 then words[1055..] else words;
            var n := body[4];
            && (n == 0 ==> PlanFor(header0, header1, bpc, words) == Refuse(IndexOutOfRange))
            && (0 < n <= 0x4001 && |body| >= 5 + n ==>
                  && PlanFor(header0, header1, bpc, words).FromTable?
                  && PlannedEntry(PlanFor(header0, header1, bpc, words), j) == body[5 + if j < n then j else n - 1])
            && (0 < n <= 0x4001 && |body| < 5 + n ==> PlanFor(header0, header1, bpc, words) == Refuse(ShortRead))
            && (n > 0x4001 ==> PlanFor(header0, header1, bpc, words) == AllZero)
  {
    hide Div;
    if header0 == 0x44 && words[4] > (if bpc == 12 then 4097 else 16385) {
      StepZero(if bpc == 12 then 4096 else 16384, words[4] - 1);
    }
  }

  /** The lossless header has no table. */
  lemma LosslessHeader(header1: nat, words: seq<nat>, j: nat)
    requires |words| >= 4
    ensures PlanFor(0x46, header1, 14, words) == AllZero && PlannedEntry(AllZero, j) == 0
  {
    hide Div;
  }

  /** A 12-bit header with the hundred samples 1, 2, ..., 100: the table falls behind the last of them. */
  lemma HundredSamplesFall()
    ensures var samples := seq<nat>(100, i requires 0 <= i < 100 => i + 1);
            && PlanFor(0x44, 0x20, 12, [0, 0, 0, 0, 100] + samples) == FromKnots(samples, 41, 0x1000)
            && Nondecreasing(samples)
            && !CurveRises(samples, 41, 0x1000)
  {
    hide Div, Mod, CurveRises;
    var samples := seq<nat>(100, i requires 0 <= i < 100 => i + 1);
    assert ([0, 0, 0, 0, 100] + samples)[5..] == samples;
    DivModUnique(41, 99, 37);
    CurveRisesIff(samples, 41, 0x1000);
  }

  /** A header that announces no samples is looked up at index -1, whatever it is, unless it is the lossless one. */
  lemma NoSamplesStop(header0: nat, header1: nat, bpc: nat, words: seq<nat>)
    requires HuffmanFor(header0, bpc) != NoTable && |Body(header0, words)| >= 4
    ensures PlanFor(header0, header1, bpc, words) == Refuse(IndexOutOfRange)
       <==> header0 != 0x46 && (|Body(header0, words)| == 4 || Body(header0, words)[4] == 0)
  {
    hide Div, Body;
  }

  /** Builds the table a header asks for; `words` is what the header is followed by, as 16-bit words. */
  method BuildCurve(header0: nat, header1: nat, bpc: nat, words: seq<nat>)
    returns (r: CurveResult, info: CompressionInfo)
    requires Words(words)
    ensures var plan := PlanFor(header0, header1, bpc, words);
            if plan.Refuse? then r == Failed(plan.error)
            else
              && info.curve.Length == TABLE_SIZE && r == Built(info.curve[TABLE_SIZE - 1], info.curve[0])
              && |Body(header0, words)| >= 4 && info.vpred == Body(header0, words)[..4]
              && info.huffman == HuffmanFor(header0, bpc) != NoTable
              && (plan.FromKnots? ==> plan.step > 0 && plan.ceiling > 0)
              && forall j :: 0 <= j < TABLE_SIZE ==> info.curve[j] == PlannedEntry(plan, j)
  {
    hide Div, Mod, Interpolated, Knot;
    ghost var plan := PlanFor(header0, header1, bpc, words);
    PlanInRange(header0, header1, bpc, words);
    var skipped := if header0 == 0x49 then SKIPPED else 0;
    var input := if |words| < skipped / 2 then [] else words[skipped / 2..];
    assert input == Body(header0, words);
    info := new CompressionInfo();
    if |input| < 4 {
      return Failed(ShortRead), info;
    }
    info.vpred := input[..4];
    var headerOk := false;
    if header0 == 0x44 || header0 == 0x49 {
      if bpc == 12 {
        info.huffman := Lossy12Bit;
        headerOk := true;
      } else if bpc == 14 {
        info.huffman := Lossy14Bit;
        headerOk := true;
      }
    } else if header0 == 0x46 {
      if bpc == 14 {
        info.huffman := Lossless14Bit;
        headerOk := true;
      } else if bpc == 12 {
        return Failed(NotSupported), info;
      }
    }
    if !headerOk {
      return Failed(FormatError), info;
    }
    var nelems := if |input| > 4 then input[4] else 0;
    var ceiling := Ceiling(bpc);
    var step := 0;
    if nelems > 1 {
      step := Div(ceiling, nelems - 1);
    }
    if header0 == 0x44 && header1 == 0x20 && step > 0 {
      if |input| < 5 + nelems {
        return Failed(ShortRead), info;
      }
      info.StoreKnots(input[5..5 + nelems], step);
      info.Interpolate(input[5..5 + nelems], step, ceiling);
    } else if header0 != 0x46 && nelems <= 0x4001 {
      if nelems == 0 {
        return Failed(IndexOutOfRange), info;
      }
      if |input| < 5 + nelems {
        return Failed(ShortRead), info;
      }
      info.CopyEntries(input[5..5 + nelems]);
      ceiling := nelems;
    }
    var black, white := info.curve[0], info.curve[ceiling - 1];
    info.FillTail(ceiling);
    r := Built(white, black);
  }
}
