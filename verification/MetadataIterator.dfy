/** The metadata iterator: entries of one directory, or of all directories of a container, one at a time. */
module MetadataIterator {
  import opened Options

  /** The iterator in use and those it interrupted, each with what it has not yet yielded. */
  datatype Inner<E> = Container(dirs: seq<seq<E>>) | Ifd(entries: seq<E>) | Empty

  function Concat<E>(dirs: seq<seq<E>>): seq<E> {
    if dirs == [] then [] else dirs[0] + Concat(dirs[1..])
  }

  /** What an inner iterator still has to yield. */
  function Left<E>(inner: Inner<E>): seq<E> {
    match inner
    case Container(dirs) => Concat(dirs)
    case Ifd(entries) => entries
    case Empty => []
  }

  /** What a stack of interrupted iterators still has to yield, last one first. */
  function LeftOnStack<E>(stack: seq<Inner<E>>): seq<E> {
    if stack == [] then [] else Left(stack[|stack| - 1]) + LeftOnStack(stack[..|stack| - 1])
  }

  /** How many directories are still to be entered. */
  function DirsIn<E>(inner: Inner<E>): nat {
    if inner.Container? then |inner.dirs| else 0
  }

  function DirsOn<E>(stack: seq<Inner<E>>): nat {
    if stack == [] then 0 else DirsIn(stack[|stack| - 1]) + DirsOn(stack[..|stack| - 1])
  }

  lemma PushLeft<E>(stack: seq<Inner<E>>, inner: Inner<E>)
    ensures LeftOnStack(stack + [inner]) == Left(inner) + LeftOnStack(stack)
    ensures DirsOn(stack + [inner]) == DirsIn(inner) + DirsOn(stack)
  {
    assert (stack + [inner])[..|stack|] == stack;
  }

  lemma PopLeft<E>(stack: seq<Inner<E>>)
    requires |stack| > 0
    ensures var top, rest := stack[|stack| - 1], stack[..|stack| - 1];
            LeftOnStack(stack) == Left(top) + LeftOnStack(rest) && DirsOn(stack) == DirsIn(top) + DirsOn(rest)
  {
  }

  lemma EnterLeft<E>(dirs: seq<seq<E>>)
    requires dirs != []
    ensures Left(Container(dirs)) == dirs[0] + Left(Container(dirs[1..]))
  {
  }

  lemma NoDirectories<E>(dirs: seq<seq<E>>)
    requires dirs == []
    ensures Left(Container(dirs)) == []
  {
  }

  lemma NothingOnStack<E>(stack: seq<Inner<E>>)
    requires stack == []
    ensures LeftOnStack(stack) == []
  {
  }

  class Iterator<E> {
    var inner: Inner<E>
    var stack: seq<Inner<E>>

    /** The iterator over one directory. */
    constructor FromDirectory(entries: seq<E>)
      ensures Shape() && Remaining() == entries
    {
      inner := Ifd(entries);
      stack := [];
    }

    /** The iterator over the directories of a container. */
    constructor FromContainer(dirs: seq<seq<E>>)
      ensures Shape() && Remaining() == Concat(dirs)
    {
      inner := Container(dirs);
      stack := [];
    }

    /** At most the container is interrupted, and only by one of its directories. */
    ghost predicate Shape()
      reads this
    {
      |stack| <= 1 && (|stack| == 1 ==> inner.Ifd? && stack[0].Container?)
    }

    ghost function Remaining(): seq<E>
      reads this
    {
      Left(inner) + LeftOnStack(stack)
    }

    /** The next entry, going down into the next directory and back up when one is used up. */
    method Next() returns (next: Option<E>)
      requires Shape()
      modifies this
      ensures Shape()
      ensures next == if old(Remaining()) == [] then None else Some(old(Remaining())[0])
      ensures Remaining() == if old(Remaining()) == [] then [] else old(Remaining())[1..]
      ensures next == None ==> stack == []
      decreases DirsIn(inner) + DirsOn(stack), |stack|
    {
      hide LeftOnStack, DirsOn, Concat;
      if stack == [] {
        NothingOnStack(stack);
      } else {
        PopLeft(stack);
      }
      next := None;
      match inner {
        case Container(dirs) =>
          if dirs != [] {
            EnterLeft(dirs);
            PushLeft(stack, Container(dirs[1..]));
            stack := stack + [Container(dirs[1..])];
            inner := Ifd(dirs[0]);
            next := Next();
          } else {
            NoDirectories(dirs);
          }
        case Ifd(entries) =>
          if entries != [] {
            next := Some(entries[0]);
            inner := Ifd(entries[1..]);
          }
        case Empty =>
          return None;
      }
      if next == None && stack != [] {
        PopLeft(stack);
        inner := stack[|stack| - 1];
        stack := stack[..|stack| - 1];
        next := Next();
      }
    }
  }

  /** Asking until there is no more yields every entry in order, and leaves an iterator that stays exhausted. */
  method Drain<E>(iter: Iterator<E>) returns (all: seq<E>)
    requires iter.Shape()
    modifies iter
    ensures all == old(iter.Remaining())
    ensures iter.Shape() && iter.Remaining() == [] && iter.stack == []
  {
    hide Left, LeftOnStack, Iterator.Shape, Iterator.Remaining;
    all := [];
    var next := iter.Next();
    while next.Some?
      invariant iter.Shape()
      invariant all + (if next.Some? then [next.value] else []) + iter.Remaining() == old(iter.Remaining())
      invariant next == None ==> iter.Remaining() == [] && iter.stack == []
      decreases |iter.Remaining()|, next.Some?
    {
      all := all + [next.value];
      next := iter.Next();
    }
  }

  // ----- what the remaining entries are

  /** Empty directories do not matter. */
  lemma {:induction false} EmptyDirectoriesSkipped<E>(a: seq<seq<E>>, b: seq<seq<E>>)
    ensures Concat(a + [[]] + b) == Concat(a + b)
  {
    if a == [] {
      assert a + [[]] + b == [[]] + b && a + b == b;
      assert ([[]] + b)[1..] == b;
    } else {
      assert (a + [[]] + b)[1..] == a[1..] + [[]] + b && (a + b)[1..] == a[1..] + b;
      EmptyDirectoriesSkipped(a[1..], b);
    }
  }

  function CountBefore<E>(dirs: seq<seq<E>>, d: nat): nat
    requires d <= |dirs|
  {
    if d == 0 then 0 else CountBefore(dirs, d - 1) + |dirs[d - 1]|
  }

  lemma {:induction false} CountBeforeTail<E>(dirs: seq<seq<E>>, d: nat)
    requires 0 < d <= |dirs|
    ensures CountBefore(dirs, d) == |dirs[0]| + CountBefore(dirs[1..], d - 1)
  {
    if d > 1 {
      CountBeforeTail(dirs, d - 1);
    }
  }

  /** Entry `k` of directory `d` comes after all entries of the directories before and its own first `k`. */
  lemma {:induction false} EntryPosition<E>(dirs: seq<seq<E>>, d: nat, k: nat)
    requires d < |dirs| && k < |dirs[d]|
    ensures CountBefore(dirs, d) + k < |Concat(dirs)|
    ensures Concat(dirs)[CountBefore(dirs, d) + k] == dirs[d][k]
  {
    if d > 0 {
      EntryPosition(dirs[1..], d - 1, k);
      CountBeforeTail(dirs, d);
    }
  }
}
