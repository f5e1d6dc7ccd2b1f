/** The decode trees of the Canon decoder: code lengths, canonical codes, and the table that stores a tree. */
module CanonHuffman {
  import opened Bits

  /** A decode tree; leaf `k` stands for the k-th symbol of the specification. */
  datatype Tree = Unfilled | Leaf(k: nat) | Fork(zero: Tree, one: Tree)

  // ----- code lengths

  function SumTo(counts: seq<Byte>, n: nat): nat
    requires n <= |counts|
  {
    if n == 0 then 0 else SumTo(counts, n - 1) + counts[n - 1]
  }

  /** The lengths of the codes of at most `n` bits, shortest first. */
  function Lengths(counts: seq<Byte>, n: nat): (lens: seq<nat>)
    requires n <= |counts|
    ensures |lens| == SumTo(counts, n)
    ensures forall j :: 0 <= j < |lens| ==> 1 <= lens[j] <= n
    ensures forall i, j :: 0 <= i < j < |lens| ==> lens[i] <= lens[j]
  {
    if n == 0 then [] else Lengths(counts, n - 1) + seq(counts[n - 1], _ => n)
  }

  ghost predicate CodeLengths(lens: seq<nat>) {
    && (forall j :: 0 <= j < |lens| ==> 1 <= lens[j] <= 16)
    && (forall i, j :: 0 <= i < j < |lens| ==> lens[i] <= lens[j])
  }

  /** The code lengths a specification gives: its first sixteen bytes count the codes of each length. */
  function SourceLengths(source: seq<Byte>): (lens: seq<nat>)
    requires |source| >= 16
    ensures CodeLengths(lens)
  {
    Lengths(source[..16], 16)
  }

  /** Symbol `k` has `next` bits when the counts up to `next`, and not before, exceed `k`. */
  lemma {:induction false} LengthAt(counts: seq<Byte>, next: nat, k: nat, n: nat)
    requires 1 <= next <= n <= |counts|
    requires SumTo(counts, next - 1) <= k < SumTo(counts, next)
    ensures SumTo(counts, next) <= SumTo(counts, n)
    ensures Lengths(counts, n)[k] == next
  {
    if next < n {
      LengthAt(counts, next, k, n - 1);
    }
  }

  // ----- canonical codes

  /** The share of the 16-bit code space that a prefix of `n` bits covers. */
  function Share(n: nat): nat {
    if n <= 16 then Pow2(16 - n) else 0
  }

  lemma ShareHalves(level: nat)
    requires level < 16
    ensures Share(level) == 2 * Share(level + 1) > 0
  {
  }

  /** Code numbers in the order of the specification: count up, appending zeros when the length grows. */
  function Code(lens: seq<nat>, k: nat): nat
    requires CodeLengths(lens) && k < |lens|
  {
    if k == 0 then 0 else (Code(lens, k - 1) + 1) * Pow2(lens[k] - lens[k - 1])
  }

  /** The bits of code `k`. */
  function CodeBits(lens: seq<nat>, k: nat): (bits: seq<bool>)
    requires CodeLengths(lens) && k < |lens|
    ensures |bits| == lens[k]
  {
    ToBits(Code(lens, k), lens[k])
  }

  /** The share of the 16-bit code space taken by the first `k` codes. */
  function Space(lens: seq<nat>, k: nat): nat
    requires k <= |lens|
  {
    if k == 0 then 0 else Space(lens, k - 1) + Share(lens[k - 1])
  }

  const WHOLE := 65536

  /** How many words of `n` bits start with a code of at most `n` bits; Kraft's condition is that it is at most 2^n. */
  function KraftSum(counts: seq<Byte>, n: nat): nat
    requires n <= |counts|
  {
    if n == 0 then 0 else 2 * KraftSum(counts, n - 1) + counts[n - 1]
  }

  lemma {:induction false} SpaceMonotone(lens: seq<nat>, j: nat, k: nat)
    requires CodeLengths(lens) && j <= k <= |lens|
    ensures Space(lens, j) <= Space(lens, k)
    ensures j < k ==> Space(lens, j) < Space(lens, k)
  {
    if j < k {
      SpaceMonotone(lens, j, k - 1);
    }
  }

  lemma NextCode(c: nat, a: nat, b: nat)
    ensures (c + 1) * a * b == c * (a * b) + a * b
  {
  }

  /** A code number, shifted to 16 bits, is the space taken by the codes before it. */
  lemma {:induction false} CodeStartsAtSpace(lens: seq<nat>, k: nat)
    requires CodeLengths(lens) && k < |lens|
    ensures Code(lens, k) * Share(lens[k]) == Space(lens, k)
  {
    if k > 0 {
      hide Pow2;
      CodeStartsAtSpace(lens, k - 1);
      Pow2Add(lens[k] - lens[k - 1], 16 - lens[k]);
      hide *;
      var c, a, b := Code(lens, k - 1), Pow2(lens[k] - lens[k - 1]), Share(lens[k]);
      NextCode(c, a, b);
    }
  }

  lemma {:induction false} SpaceOfRun(lens: seq<nat>, tail: seq<nat>, k: nat)
    requires k <= |lens|
    ensures Space(lens + tail, k) == Space(lens, k)
  {
    if k > 0 {
      SpaceOfRun(lens, tail, k - 1);
    }
  }

  lemma {:induction false} SpaceOfEqualLengths(lens: seq<nat>, n: nat, count: nat)
    ensures Space(lens + seq(count, _ => n), |lens| + count) == Space(lens, |lens|) + count * Share(n)
  {
    hide Share;
    SpaceOfRun(lens, seq(count, _ => n), |lens|);
    if count > 0 {
      var all := lens + seq(count, _ => n);
      var fewer := lens + seq(count - 1, _ => n);
      assert all == fewer + [n];
      SpaceOfRun(fewer, [n], |fewer|);
      SpaceOfEqualLengths(lens, n, count - 1);
      assert |fewer| == |lens| + count - 1;
      var p := Share(n);
      assert count * p == (count - 1) * p + p;
    }
  }

  lemma {:induction false} KraftSumIsSpace(counts: seq<Byte>, n: nat)
    requires n <= |counts| && n <= 16
    ensures KraftSum(counts, n) * Share(n) == Space(Lengths(counts, n), |Lengths(counts, n)|)
  {
    hide Share, Space;
    if n == 0 {
      NoSpace(Lengths(counts, 0));
    } else {
      KraftSumIsSpace(counts, n - 1);
      SpaceOfEqualLengths(Lengths(counts, n - 1), n, counts[n - 1]);
      ShareHalves(n - 1);
      var k, h, c := KraftSum(counts, n - 1), Share(n), counts[n - 1];
      assert (2 * k + c) * h == k * (2 * h) + c * h;
    }
  }

  lemma NoSpace(lens: seq<nat>)
    ensures Space(lens, 0) == 0
  {
  }

  /** The lengths a specification gives satisfy Kraft's inequality exactly when its counts do. */
  lemma KraftOfSource(source: seq<Byte>)
    requires |source| >= 16
    ensures Space(SourceLengths(source), |SourceLengths(source)|) == KraftSum(source[..16], 16)
  {
    hide Space;
    KraftSumIsSpace(source[..16], 16);
    assert Share(16) == 1;
  }

  // ----- the tree

  /** The tree grown below a node at depth `level` when `k` leaves are placed, and the leaves placed then. */
  function Build(lens: seq<nat>, k: nat, level: nat): (r: (Tree, nat))
    requires CodeLengths(lens)
    requires k <= |lens| && level <= 16
    ensures k <= r.1 <= |lens|
    decreases 16 - level
  {
    if k == |lens| then (Unfilled, k)
    else if level < lens[k] then
      var (zero, k1) := Build(lens, k, level + 1);
      var (one, k2) := Build(lens, k1, level + 1);
      (Fork(zero, one), k2)
    else (Leaf(k), k + 1)
  }

  /** Following `path` from the root of `t` ends at leaf `k`. */
  predicate LeafAt(t: Tree, path: seq<bool>, k: nat) {
    match t
    case Unfilled => false
    case Leaf(j) => path == [] && j == k
    case Fork(zero, one) => path != [] && LeafAt(if path[0] then one else zero, path[1..], k)
  }

  function Nodes(t: Tree): (n: nat)
    ensures n >= 1
  {
    match t
    case Fork(zero, one) => 1 + Nodes(zero) + Nodes(one)
    case _ => 1
  }

  function UnfilledNodes(t: Tree): nat {
    match t
    case Fork(zero, one) => UnfilledNodes(zero) + UnfilledNodes(one)
    case Unfilled => 1
    case Leaf(_) => 0
  }

  lemma BuildCases(lens: seq<nat>, k: nat, level: nat)
    requires CodeLengths(lens) && k <= |lens| && level <= 16
    ensures k == |lens| ==> Build(lens, k, level) == (Unfilled, k)
    ensures k < |lens| && lens[k] <= level ==> Build(lens, k, level) == (Leaf(k), k + 1)
    ensures k < |lens| && level < lens[k] ==>
              && level < 16
              && var (zero, k1) := Build(lens, k, level + 1);
                 var (one, k2) := Build(lens, k1, level + 1);
                 && Build(lens, k, level) == (Fork(zero, one), k2)
                 && (k1 < |lens| ==> level + 1 <= lens[k1])
  {
    assert k < |lens| ==> lens[k] <= 16;
  }

  lemma {:induction false} BuildShape(lens: seq<nat>, k: nat, level: nat)
    requires CodeLengths(lens) && k <= |lens| && level <= 16
    requires k < |lens| ==> level <= lens[k]
    ensures var (t, k') := Build(lens, k, level);
            && Nodes(t) == 2 * (k' - k + UnfilledNodes(t)) - 1
            && (k' < |lens| ==> UnfilledNodes(t) == 0)
            && UnfilledNodes(t) <= (if k < |lens| then 16 - level else 1)
    decreases 16 - level
  {
    hide Build, CodeLengths;
    BuildCases(lens, k, level);
    if k < |lens| && level < lens[k] {
      BuildShape(lens, k, level + 1);
      BuildShape(lens, Build(lens, k, level + 1).1, level + 1);
    }
  }

  lemma SpaceStep(lens: seq<nat>, k: nat)
    requires k < |lens|
    ensures Space(lens, k + 1) == Space(lens, k) + Share(lens[k])
  {
  }

  /** A subtree at depth `level` fills its share of the code space from the left, without gaps. */
  lemma {:induction false} BuildSpace(lens: seq<nat>, k: nat, level: nat)
    requires CodeLengths(lens) && k < |lens| && level <= lens[k] && level <= 16
    ensures var (t, k') := Build(lens, k, level);
            var end := Space(lens, k) + Share(level);
            && Space(lens, k') <= end
            && (k' < |lens| ==> Space(lens, k') == end)
            && (UnfilledNodes(t) == 0 <==> Space(lens, k') == end)
    decreases 16 - level
  {
    hide Build, CodeLengths, Share, Space;
    BuildCases(lens, k, level);
    if level < lens[k] {
      var k1 := Build(lens, k, level + 1).1;
      ShareHalves(level);
      BuildSpace(lens, k, level + 1);
      if k1 < |lens| {
        BuildSpace(lens, k1, level + 1);
      } else {
        BuildCases(lens, k1, level + 1);
      }
    } else {
      SpaceStep(lens, k);
    }
  }

  /** Leaf `j` of `t`, grown below prefix `v`, sits at the remaining bits of its canonical code. */
  ghost predicate Places(lens: seq<nat>, t: Tree, level: nat, v: nat, j: nat)
    requires CodeLengths(lens) && j < |lens|
  {
    && level <= lens[j]
    && Value(CodeBits(lens, j)[..level]) == v
    && LeafAt(t, CodeBits(lens, j)[level..], j)
  }

  ghost predicate PlacesAll(lens: seq<nat>, t: Tree, level: nat, v: nat, k: nat, k': nat)
    requires CodeLengths(lens) && k' <= |lens|
  {
    forall j :: k <= j < k' ==> Places(lens, t, level, v, j)
  }

  lemma {:induction false} BuildPlaces(lens: seq<nat>, k: nat, level: nat, v: nat)
    requires CodeLengths(lens) && k <= |lens| && level <= 16
    requires v < Pow2(level)
    requires k < |lens| ==> level <= lens[k] && Space(lens, k) == v * Share(level)
    ensures var (t, k') := Build(lens, k, level);
            PlacesAll(lens, t, level, v, k, k')
    decreases 16 - level
  {
    hide Build, CodeLengths, Share, Space, PlacesAll, Pow2, UnfilledNodes;
    BuildCases(lens, k, level);
    if k == |lens| {
      NothingPlaced(lens, level, v, k);
    } else if level < lens[k] {
      var (zero, k1) := Build(lens, k, level + 1);
      var (one, k2) := Build(lens, k1, level + 1);
      HalfShares(v, level);
      BuildPlaces(lens, k, level + 1, 2 * v);
      BuildSpace(lens, k, level + 1);
      BuildPlaces(lens, k1, level + 1, 2 * v + 1);
      ForkPlaces(lens, zero, one, k, k1, k2, level, v);
    } else {
      LeafPlaces(lens, k, v);
    }
  }

  lemma ForkPlaces(lens: seq<nat>, zero: Tree, one: Tree, k: nat, k1: nat, k2: nat, level: nat, v: nat)
    requires CodeLengths(lens) && k <= k1 <= k2 <= |lens|
    requires PlacesAll(lens, zero, level + 1, 2 * v, k, k1)
    requires PlacesAll(lens, one, level + 1, 2 * v + 1, k1, k2)
    ensures PlacesAll(lens, Fork(zero, one), level, v, k, k2)
  {
    hide LeafAt, Value;
    forall j | k <= j < k2
      ensures Places(lens, Fork(zero, one), level, v, j)
    {
      if j < k1 {
        assert Places(lens, zero, level + 1, 2 * v, j);
      } else {
        assert Places(lens, one, level + 1, 2 * v + 1, j);
      }
      PlaceInFork(CodeBits(lens, j), zero, one, level, v, j);
    }
  }

  lemma PlaceInFork(bits: seq<bool>, zero: Tree, one: Tree, level: nat, v: nat, j: nat)
    requires level < |bits|
    requires
      || (Value(bits[..level + 1]) == 2 * v && LeafAt(zero, bits[level + 1..], j))
      || (Value(bits[..level + 1]) == 2 * v + 1 && LeafAt(one, bits[level + 1..], j))
    ensures Value(bits[..level]) == v
    ensures LeafAt(Fork(zero, one), bits[level..], j)
  {
    assert bits[..level + 1][..level] == bits[..level];
    assert bits[level..][1..] == bits[level + 1..];
  }

  lemma NextPow2(n: nat)
    ensures Pow2(n + 1) == 2 * Pow2(n)
  {
  }

  lemma HalfProducts(v: int, h: int)
    ensures v * (2 * h) == 2 * v * h
    ensures 2 * v * h + h == (2 * v + 1) * h
  {
  }

  lemma HalfShares(v: nat, level: nat)
    requires level < 16
    ensures v * Share(level) == 2 * v * Share(level + 1)
    ensures v * Share(level) + Share(level + 1) == (2 * v + 1) * Share(level + 1)
    ensures Pow2(level + 1) == 2 * Pow2(level)
  {
    ShareHalves(level);
    NextPow2(level);
    hide Share, Pow2;
    HalfProducts(v, Share(level + 1));
  }

  lemma NothingPlaced(lens: seq<nat>, level: nat, v: nat, k: nat)
    requires CodeLengths(lens) && k <= |lens|
    ensures PlacesAll(lens, Unfilled, level, v, k, k)
  {
  }

  lemma LeafPlaces(lens: seq<nat>, k: nat, v: nat)
    requires CodeLengths(lens) && k < |lens|
    requires v < Pow2(lens[k])
    requires Space(lens, k) == v * Share(lens[k])
    ensures PlacesAll(lens, Leaf(k), lens[k], v, k, k + 1)
  {
    hide CodeLengths, Code, Space, Share, Pow2, Value, ToBits;
    CodeStartsAtSpace(lens, k);
    SharePositive(lens, k);
    CancelFactor(Code(lens, k), v, Share(lens[k]));
    ValueOfToBits(v, lens[k]);
    assert CodeBits(lens, k)[..lens[k]] == ToBits(v, lens[k]);
  }

  lemma SharePositive(lens: seq<nat>, k: nat)
    requires CodeLengths(lens) && k < |lens|
    ensures Share(lens[k]) > 0
  {
  }

  lemma CancelFactor(c: nat, v: nat, p: nat)
    requires p > 0
    requires c * p == v * p
    ensures c == v
  {
    assert (c - v) * p == 0;
    MultipleFarFromZero(c - v, p);
  }

  /** Below prefix `v` there are no other leaves. */
  lemma {:induction false} BuildOnly(lens: seq<nat>, k: nat, level: nat, path: seq<bool>, j: nat)
    requires CodeLengths(lens) && k <= |lens| && level <= 16
    requires LeafAt(Build(lens, k, level).0, path, j)
    ensures k <= j < Build(lens, k, level).1
    decreases 16 - level
  {
    hide Build, CodeLengths;
    BuildCases(lens, k, level);
    if k < |lens| && level < lens[k] {
      BuildOnly(lens, if path[0] then Build(lens, k, level + 1).1 else k, level + 1, path[1..], j);
    }
  }

  // ----- what the whole tree is

  function DecodeTree(lens: seq<nat>): Tree
    requires CodeLengths(lens)
  {
    Build(lens, 0, 0).0
  }

  /** How many of the codes the tree has room for. */
  function Placed(lens: seq<nat>): nat
    requires CodeLengths(lens)
  {
    Build(lens, 0, 0).1
  }

  /** Every code is placed exactly when the lengths satisfy Kraft's inequality. */
  lemma AllPlacedIffKraft(lens: seq<nat>)
    requires CodeLengths(lens)
    ensures Placed(lens) == |lens| <==> Space(lens, |lens|) <= WHOLE
  {
    Pow2Values();
    if |lens| > 0 {
      BuildSpace(lens, 0, 0);
      if Placed(lens) < |lens| {
        SpaceMonotone(lens, Placed(lens), |lens|);
      }
    }
  }

  lemma PlacedLeafAtCode(lens: seq<nat>, k: nat)
    requires CodeLengths(lens) && k < Placed(lens)
    ensures LeafAt(DecodeTree(lens), CodeBits(lens, k), k)
  {
    BuildPlaces(lens, 0, 0, 0);
    hide CodeLengths;
    assert Places(lens, DecodeTree(lens), 0, 0, k);
    assert CodeBits(lens, k)[0..] == CodeBits(lens, k);
  }

  /** Leaf `k` of the tree sits at the end of the canonical code of symbol `k`, and nowhere else. */
  lemma LeavesAreCanonicalCodes(lens: seq<nat>, path: seq<bool>, k: nat)
    requires CodeLengths(lens)
    ensures LeafAt(DecodeTree(lens), path, k) <==> k < Placed(lens) && path == CodeBits(lens, k)
  {
    if k < Placed(lens) {
      PlacedLeafAtCode(lens, k);
    }
    hide CodeLengths, CodeBits;
    if LeafAt(DecodeTree(lens), path, k) {
      BuildOnly(lens, 0, 0, path, k);
      OnePathPerLeaf(lens, 0, 0, path, CodeBits(lens, k), k);
    }
  }

  lemma {:induction false} OnePathPerLeaf(lens: seq<nat>, k: nat, level: nat, p: seq<bool>, q: seq<bool>, j: nat)
    requires CodeLengths(lens) && k <= |lens| && level <= 16
    requires LeafAt(Build(lens, k, level).0, p, j)
    requires LeafAt(Build(lens, k, level).0, q, j)
    ensures p == q
    decreases 16 - level
  {
    hide Build, CodeLengths;
    BuildCases(lens, k, level);
    if k < |lens| && level < lens[k] {
      var k1 := Build(lens, k, level + 1).1;
      BuildOnly(lens, if p[0] then k1 else k, level + 1, p[1..], j);
      BuildOnly(lens, if q[0] then k1 else k, level + 1, q[1..], j);
      OnePathPerLeaf(lens, if p[0] then k1 else k, level + 1, p[1..], q[1..], j);
    }
  }

  /** In any tree, no path to a leaf goes through another leaf. */
  lemma {:induction false} PathsArePrefixFree(t: Tree, p: seq<bool>, q: seq<bool>, j: nat, k: nat)
    requires LeafAt(t, p, j)
    requires LeafAt(t, p + q, k)
    ensures q == [] && j == k
  {
    if p == [] {
      assert p + q == q;
    } else {
      assert (p + q)[1..] == p[1..] + q;
      PathsArePrefixFree(if p[0] then t.one else t.zero, p[1..], q, j, k);
    }
  }

  /** No canonical code is a prefix of the code of another symbol. */
  lemma CodesArePrefixFree(lens: seq<nat>, j: nat, k: nat)
    requires CodeLengths(lens) && Space(lens, |lens|) <= WHOLE
    requires j < |lens| && k < |lens|
    requires CodeBits(lens, j) <= CodeBits(lens, k)
    ensures j == k
  {
    hide CodeLengths, Code, CodeBits, Space, LeafAt, DecodeTree, Placed;
    AllPlacedIffKraft(lens);
    LeavesAreCanonicalCodes(lens, CodeBits(lens, j), j);
    LeavesAreCanonicalCodes(lens, CodeBits(lens, k), k);
    var rest := CodeBits(lens, k)[|CodeBits(lens, j)|..];
    assert CodeBits(lens, k) == CodeBits(lens, j) + rest;
    PathsArePrefixFree(DecodeTree(lens), CodeBits(lens, j), rest, j, k);
  }

  /** The nodes the tree takes; a complete code has no unfilled ones. */
  lemma TreeSize(lens: seq<nat>)
    requires CodeLengths(lens)
    ensures Nodes(DecodeTree(lens)) == 2 * (Placed(lens) + UnfilledNodes(DecodeTree(lens))) - 1
    ensures UnfilledNodes(DecodeTree(lens)) <= 16
    ensures Nodes(DecodeTree(lens)) <= 2 * (|lens| + 16) - 1
    ensures UnfilledNodes(DecodeTree(lens)) == 0 <==> Space(lens, |lens|) >= WHOLE
    ensures Space(lens, |lens|) == WHOLE ==> Nodes(DecodeTree(lens)) == 2 * |lens| - 1
  {
    BuildShape(lens, 0, 0);
    AllPlacedIffKraft(lens);
    if |lens| > 0 {
      Pow2Values();
      BuildSpace(lens, 0, 0);
      SpaceMonotone(lens, Placed(lens), |lens|);
    }
  }

  // ----- reading codes

  /** The terminal node reached by the bits of `s` from `off` on, and the position after them. */
  function Walk(t: Tree, s: Stream, off: nat): (r: (Tree, nat))
    ensures !r.0.Fork?
  {
    match t
    case Fork(zero, one) => Walk(if s(off) then one else zero, s, off + 1)
    case _ => (t, off)
  }

  lemma {:induction false} WalkFindsLeaf(t: Tree, s: Stream, off: nat, path: seq<bool>, k: nat)
    requires LeafAt(t, path, k)
    requires Carries(s, off, path)
    ensures Walk(t, s, off) == (Leaf(k), off + |path|)
  {
    if t.Fork? {
      assert [path[0]] + path[1..] == path;
      CarriesSplit(s, off, [path[0]], path[1..]);
      WalkFindsLeaf(if path[0] then t.one else t.zero, s, off + 1, path[1..], k);
    }
  }

  lemma CodeReadsBack(lens: seq<nat>, k: nat, s: Stream, off: nat)
    requires CodeLengths(lens) && Space(lens, |lens|) <= WHOLE
    requires k < |lens| && Carries(s, off, CodeBits(lens, k))
    ensures Walk(DecodeTree(lens), s, off) == (Leaf(k), off + lens[k])
  {
    hide CodeLengths, Code, ToBits, Space, Walk, LeafAt, Carries, DecodeTree, Placed;
    AllPlacedIffKraft(lens);
    LeavesAreCanonicalCodes(lens, CodeBits(lens, k), k);
    WalkFindsLeaf(DecodeTree(lens), s, off, CodeBits(lens, k), k);
  }

  function CodesOf(lens: seq<nat>, ks: seq<nat>): seq<bool>
    requires CodeLengths(lens) && forall i :: 0 <= i < |ks| ==> ks[i] < |lens|
  {
    if ks == [] then [] else CodeBits(lens, ks[0]) + CodesOf(lens, ks[1..])
  }

  function Leaves(ks: seq<nat>): seq<Tree> {
    if ks == [] then [] else [Leaf(ks[0])] + Leaves(ks[1..])
  }

  function ReadCodes(t: Tree, s: Stream, off: nat, n: nat): seq<Tree>
    decreases n
  {
    if n == 0 then []
    else
      var (leaf, next) := Walk(t, s, off);
      [leaf] + ReadCodes(t, s, next, n - 1)
  }

  /** Reading `|ks|` codes off their concatenation gives back `ks`. */
  lemma {:induction false} CodesReadBack(lens: seq<nat>, ks: seq<nat>, s: Stream, off: nat)
    requires CodeLengths(lens) && Space(lens, |lens|) <= WHOLE
    requires forall i :: 0 <= i < |ks| ==> ks[i] < |lens|
    requires Carries(s, off, CodesOf(lens, ks))
    ensures ReadCodes(DecodeTree(lens), s, off, |ks|) == Leaves(ks)
    decreases |ks|
  {
    hide CodeBits, Space, DecodeTree, Walk, Carries, CodeLengths, LeafAt;
    if ks != [] {
      var head := CodeBits(lens, ks[0]);
      CarriesSplit(s, off, head, CodesOf(lens, ks[1..]));
      CodeReadsBack(lens, ks[0], s, off);
      CodesReadBack(lens, ks[1..], s, off + |head|);
    }
  }
}
