/** The node array that holds a decode tree, and the recursive method that fills it. */
module CanonDecodeTable {
  import opened Bits
  import opened CanonHuffman

  /** A node; branches are node numbers, and 0 stands for no branch, since nothing points at the root. */
  datatype Node = Node(branch0: nat, branch1: nat, leaf: Byte)

  const BLANK := Node(0, 0, 0)

  /** `nodes` holds `t` from node `d` on, each left subtree right behind its parent. */
  ghost predicate Stored(nodes: seq<Node>, d: nat, t: Tree, symbols: seq<Byte>)
    decreases t
  {
    && d + Nodes(t) <= |nodes|
    && match t
       case Unfilled => nodes[d] == BLANK
       case Leaf(k) => k < |symbols| && nodes[d] == Node(0, 0, symbols[k])
       case Fork(zero, one) =>
         && nodes[d] == Node(d + 1, d + 1 + Nodes(zero), 0)
         && Stored(nodes, d + 1, zero, symbols)
         && Stored(nodes, d + 1 + Nodes(zero), one, symbols)
  }

  ghost predicate Blank(nodes: seq<Node>, from: nat, to: nat) {
    to <= |nodes| && forall i :: from <= i < to ==> nodes[i] == BLANK
  }

  lemma StoredUnfilled(nodes: seq<Node>, d: nat, symbols: seq<Byte>)
    requires d < |nodes| && nodes[d] == BLANK
    ensures Stored(nodes, d, Unfilled, symbols)
  {
  }

  lemma StoredLeaf(nodes: seq<Node>, d: nat, k: nat, symbols: seq<Byte>)
    requires d < |nodes| && k < |symbols| && nodes[d] == Node(0, 0, symbols[k])
    ensures Stored(nodes, d, Leaf(k), symbols)
  {
  }

  lemma {:induction false} StoredFork(nodes: seq<Node>, d: nat, zero: Tree, one: Tree, symbols: seq<Byte>)
    requires d < |nodes| && nodes[d] == Node(d + 1, d + 1 + Nodes(zero), 0)
    requires Stored(nodes, d + 1, zero, symbols)
    requires Stored(nodes, d + 1 + Nodes(zero), one, symbols)
    ensures Stored(nodes, d, Fork(zero, one), symbols)
  {
  }

  lemma StoredCases(nodes: seq<Node>, d: nat, t: Tree, symbols: seq<Byte>)
    requires Stored(nodes, d, t, symbols)
    ensures d + Nodes(t) <= |nodes|
    ensures t.Unfilled? ==> nodes[d] == BLANK
    ensures t.Leaf? ==> t.k < |symbols| && nodes[d] == Node(0, 0, symbols[t.k])
    ensures t.Fork? ==>
              && Nodes(t) == 1 + Nodes(t.zero) + Nodes(t.one)
              && nodes[d] == Node(d + 1, d + 1 + Nodes(t.zero), 0)
              && Stored(nodes, d + 1, t.zero, symbols)
              && Stored(nodes, d + 1 + Nodes(t.zero), t.one, symbols)
  {
  }

  lemma {:induction false} StoredUnchanged(before: seq<Node>, after: seq<Node>, d: nat, t: Tree, symbols: seq<Byte>)
    requires Stored(before, d, t, symbols)
    requires |before| == |after|
    requires forall i :: d <= i < d + Nodes(t) ==> after[i] == before[i]
    ensures Stored(after, d, t, symbols)
    decreases t
  {
    hide Stored, Nodes;
    StoredCases(before, d, t, symbols);
    match t
    case Unfilled => StoredUnfilled(after, d, symbols);
    case Leaf(k) => StoredLeaf(after, d, k, symbols);
    case Fork(zero, one) =>
      StoredUnchanged(before, after, d + 1, zero, symbols);
      StoredUnchanged(before, after, d + 1 + Nodes(zero), one, symbols);
      StoredFork(after, d, zero, one, symbols);
  }

  /** From node `dest` on there is blank room, and there are symbols, for what grows there. */
  ghost predicate Room(nodes: seq<Node>, dest: nat, leaf: nat, source: seq<Byte>, level: nat)
    requires |source| >= 16
  {
    && level <= 16
    && leaf <= |SourceLengths(source)|
    && var (t, k) := Build(SourceLengths(source), leaf, level);
       && k <= |source| - 16
       && Blank(nodes, dest, dest + Nodes(t))
  }

  /** The cursors moved from (dest, leaf) to (free, leaf') while the tree due there was stored and nothing else. */
  ghost predicate Grown(before: seq<Node>, after: seq<Node>, dest: nat, leaf: nat, free: nat, leaf': nat,
                        source: seq<Byte>, level: nat)
    requires |source| >= 16 && Room(before, dest, leaf, source, level)
  {
    && (var (t, k) := Build(SourceLengths(source), leaf, level);
        && leaf' == k
        && free == dest + Nodes(t)
        && Stored(after, dest, t, source[16..]))
    && |after| == |before|
    && forall i :: 0 <= i < dest || free <= i < |before| ==> after[i] == before[i]
  }

  ghost predicate Forks(source: seq<Byte>, leaf: nat, level: nat)
    requires |source| >= 16
  {
    var lens := SourceLengths(source);
    leaf < |lens| && level < lens[leaf]
  }

  lemma RoomForZero(nodes: seq<Node>, dest: nat, leaf: nat, source: seq<Byte>, level: nat, node: Node)
    requires |source| >= 16 && Room(nodes, dest, leaf, source, level)
    requires Forks(source, leaf, level)
    ensures dest < |nodes|
    ensures Room(nodes[dest := node], dest + 1, leaf, source, level + 1)
  {
    assert SourceLengths(source)[leaf] <= 16;
    hide SourceLengths, CodeLengths;
  }

  lemma RoomForOne(nodes: seq<Node>, dest: nat, leaf: nat, source: seq<Byte>, level: nat,
                   node: Node, after: seq<Node>, free: nat, leaf': nat, node': Node)
    requires |source| >= 16 && Room(nodes, dest, leaf, source, level)
    requires Forks(source, leaf, level)
    requires dest < |nodes| && Room(nodes[dest := node], dest + 1, leaf, source, level + 1)
    requires Grown(nodes[dest := node], after, dest + 1, leaf, free, leaf', source, level + 1)
    ensures dest < |after| && after[dest] == node
    ensures Room(after[dest := node'], free, leaf', source, level + 1)
  {
    hide SourceLengths, CodeLengths, Stored;
  }

  lemma GrownFork(nodes: seq<Node>, dest: nat, leaf: nat, source: seq<Byte>, level: nat,
                  after0: seq<Node>, free0: nat, leaf0: nat, after1: seq<Node>, free1: nat, leaf1: nat)
    requires |source| >= 16 && Room(nodes, dest, leaf, source, level)
    requires Forks(source, leaf, level)
    requires dest < |nodes| == |after0|
    requires Room(nodes[dest := Node(dest + 1, 0, 0)], dest + 1, leaf, source, level + 1)
    requires Grown(nodes[dest := Node(dest + 1, 0, 0)], after0, dest + 1, leaf, free0, leaf0, source, level + 1)
    requires Room(after0[dest := Node(dest + 1, free0, 0)], free0, leaf0, source, level + 1)
    requires Grown(after0[dest := Node(dest + 1, free0, 0)], after1, free0, leaf0, free1, leaf1, source, level + 1)
    ensures Grown(nodes, after1, dest, leaf, free1, leaf1, source, level)
  {
    hide SourceLengths, CodeLengths, Stored, Build;
    var lens := SourceLengths(source);
    BuildCases(lens, leaf, level);
    var (zero, k1) := Build(lens, leaf, level + 1);
    var (one, k2) := Build(lens, k1, level + 1);
    StoredUnchanged(after0, after1, dest + 1, zero, source[16..]);
    StoredFork(after1, dest, zero, one, source[16..]);
  }

  class DecodeTable {
    const nodes: array<Node>
    var free: nat
    var leaf: nat

    constructor (size: nat)
      ensures fresh(nodes) && nodes.Length == size
      ensures Blank(nodes[..], 0, size)
    {
      nodes := new Node[size](_ => BLANK);
      free, leaf := 0, 0;
    }

    /** The bit count of the code that the next leaf should have; `i <= leaf` when all leaves are placed. */
    method NextLevel(source: seq<Byte>) returns (i: nat, next: nat)
      requires |source| >= 16
      ensures next <= 16
      ensures i > leaf <==> leaf < |SourceLengths(source)|
      ensures i > leaf ==> SourceLengths(source)[leaf] == next
    {
      var counts := source[..16];
      i, next := 0, 0;
      while i <= leaf && next < 16
        invariant next <= 16
        invariant i == SumTo(counts, next)
        invariant next > 0 ==> SumTo(counts, next - 1) <= leaf
      {
        i := i + source[next];
        next := next + 1;
      }
      if i > leaf {
        LengthAt(counts, next, leaf, 16);
      }
    }

    /** Builds the whole tree in the node array: the call at level 0, which resets the cursors. */
    method MakeDecoder(dest: nat, source: seq<Byte>)
      requires |source| >= 16 && Room(nodes[..], dest, 0, source, 0)
      modifies this, nodes
      ensures Grown(old(nodes[..]), nodes[..], dest, 0, free, leaf, source, 0)
    {
      free := dest;
      leaf := 0;
      Grow(dest, source, 0);
    }

    /** Grows the tree below node `dest`, drawing nodes and symbols from the cursors. */
    method Grow(dest: nat, source: seq<Byte>, level: nat)
      requires |source| >= 16 && dest == free
      requires Room(nodes[..], dest, leaf, source, level)
      modifies this, nodes
      ensures Grown(old(nodes[..]), nodes[..], dest, old(leaf), free, leaf, source, level)
      decreases 16 - level
    {
      hide CodeLengths, SourceLengths, Stored;
      free := free + 1;
      var i, next := NextLevel(source);
      ghost var n0, k0 := nodes[..], leaf;
      if i > leaf {
        if level < next {
          GrowFork(dest, source, level);
        } else {
          nodes[dest] := nodes[dest].(leaf := source[16 + leaf]);
          leaf := leaf + 1;
          StoredLeaf(nodes[..], dest, k0, source[16..]);
        }
      } else {
        StoredUnfilled(nodes[..], dest, source[16..]);
      }
    }

    /** Hangs two subtrees below node `dest`. */
    method GrowFork(dest: nat, source: seq<Byte>, level: nat)
      requires |source| >= 16 && dest + 1 == free
      requires Room(nodes[..], dest, leaf, source, level) && Forks(source, leaf, level)
      modifies this, nodes
      ensures Grown(old(nodes[..]), nodes[..], dest, old(leaf), free, leaf, source, level)
      decreases 16 - level, 0
    {
      ghost var n0, k0 := nodes[..], leaf;
      assert nodes[dest] == BLANK && level < 16;
      hide Room, Grown, Forks;
      RoomForZero(n0, dest, k0, source, level, Node(free, 0, 0));
      nodes[dest] := nodes[dest].(branch0 := free);
      assert nodes[..] == n0[dest := Node(dest + 1, 0, 0)];
      Grow(free, source, level + 1);
      ghost var n1, k1, free1 := nodes[..], leaf, free;
      RoomForOne(n0, dest, k0, source, level, Node(dest + 1, 0, 0), n1, free1, k1, Node(dest + 1, free1, 0));
      nodes[dest] := nodes[dest].(branch1 := free);
      assert nodes[..] == n1[dest := Node(dest + 1, free1, 0)];
      Grow(free, source, level + 1);
      GrownFork(n0, dest, k0, source, level, n1, free1, k1, nodes[..], free, leaf);
    }
  }
}
