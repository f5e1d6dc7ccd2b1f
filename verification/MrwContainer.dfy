/** The block walk of the Minolta container: which data blocks are found, and which one of each name is kept. */
module MrwContainer {
  import opened Bits
  import opened Options

  datatype Result<+T> = Ok(value: T) | Eof

  const HEADER := 8

  /** A block as found: where it starts, its four name bytes, the length of its payload. */
  datatype DataBlock = DataBlock(offset: nat, name: seq<Byte>, length: nat)

  const PRD: seq<Byte> := [0x50, 0x52, 0x44]
  const TTW: seq<Byte> := [0x54, 0x54, 0x57]
  const WBG: seq<Byte> := [0x57, 0x42, 0x47]
  const RIF: seq<Byte> := [0x52, 0x49, 0x46]
  const PAD: seq<Byte> := [0x50, 0x41, 0x44]

  /** The block has this three-letter name; the byte before the letters is not looked at. */
  predicate Named(block: DataBlock, tag: seq<Byte>) {
    |block.name| >= 1 && block.name[1..] == tag
  }

  // ----- numbers

  function U32(big: bool, b: seq<Byte>): nat
    requires |b| == 4
  {
    var b0: nat, b1: nat, b2: nat, b3: nat := b[0], b[1], b[2], b[3];
    if big then b3 + 0x100 * b2 + 0x1_0000 * b1 + 0x100_0000 * b0
    else b0 + 0x100 * b1 + 0x1_0000 * b2 + 0x100_0000 * b3
  }

  /** The number of four bytes, in both orders. */
  lemma U32Is(b0: nat, b1: nat, b2: nat, b3: nat)
    requires b0 < 256 && b1 < 256 && b2 < 256 && b3 < 256
    ensures U32(true, [b0, b1, b2, b3]) == ((b0 * 256 + b1) * 256 + b2) * 256 + b3
    ensures U32(false, [b0, b1, b2, b3]) == ((b3 * 256 + b2) * 256 + b1) * 256 + b0
  {
  }

  function U32Bytes(big: bool, n: nat): (b: seq<Byte>)
    requires n < 0x1_0000_0000
    ensures |b| == 4
  {
    var b0: Byte, b1: Byte, b2: Byte, b3: Byte := n % 256, n / 0x100 % 256, n / 0x1_0000 % 256, n / 0x100_0000;
    if big then [b3, b2, b1, b0] else [b0, b1, b2, b3]
  }

  lemma U32RoundTrip(big: bool, n: nat)
    requires n < 0x1_0000_0000
    ensures U32(big, U32Bytes(big, n)) == n
  {
    assert n / 0x1_0000 == n / 0x100 / 0x100 && n / 0x100_0000 == n / 0x100 / 0x100 / 0x100;
  }

  // ----- the walk

  function BlockAt(data: seq<Byte>, big: bool, pos: nat): Option<DataBlock> {
    if pos + HEADER > |data| then None
    else Some(DataBlock(pos, data[pos..pos + 4], U32(big, data[pos + 4..pos + 8])))
  }

  /** The blocks found from `pos` on, as long as they start before `end`. */
  function Walk(data: seq<Byte>, big: bool, pos: nat, end: nat): Result<seq<DataBlock>>
    decreases end - pos
  {
    if pos >= end then Ok([])
    else
      match BlockAt(data, big, pos)
      case None => Eof
      case Some(block) =>
        match Walk(data, big, pos + block.length + HEADER, end)
        case Eof => Eof
        case Ok(rest) => Ok([block] + rest)
  }

  /** Blocks already seen, in front of those still found. */
  function Joined(seen: seq<DataBlock>, found: Result<seq<DataBlock>>): Result<seq<DataBlock>> {
    match found
    case Eof => Eof
    case Ok(rest) => Ok(seen + rest)
  }

  lemma WalkBegin(found: Result<seq<DataBlock>>)
    ensures Joined([], found) == found
  {
    assert found.Ok? ==> [] + found.value == found.value;
  }

  lemma WalkStep(data: seq<Byte>, big: bool, pos: nat, end: nat, seen: seq<DataBlock>)
    requires pos < end
    ensures Joined(seen, Walk(data, big, pos, end))
         == match BlockAt(data, big, pos)
            case None => Eof
            case Some(block) => Joined(seen + [block], Walk(data, big, pos + block.length + HEADER, end))
  {
    hide BlockAt;
    if BlockAt(data, big, pos).Some? {
      var block := BlockAt(data, big, pos).value;
      var found := Walk(data, big, pos + block.length + HEADER, end);
      if found.Ok? {
        assert seen + ([block] + found.value) == seen + [block] + found.value;
      }
    }
  }

  lemma WalkEnd(data: seq<Byte>, big: bool, pos: nat, end: nat, seen: seq<DataBlock>)
    requires pos >= end
    ensures Joined(seen, Walk(data, big, pos, end)) == Ok(seen)
  {
    assert seen + [] == seen;
  }

  /** The last of the blocks with this name. */
  function LastNamed(blocks: seq<DataBlock>, tag: seq<Byte>): Option<DataBlock> {
    if blocks == [] then None
    else
      var last := blocks[|blocks| - 1];
      if Named(last, tag) then Some(last) else LastNamed(blocks[..|blocks| - 1], tag)
  }

  // ----- the container

  class MrwContainer {
    const data: seq<Byte>
    const big: bool
    var pos: nat
    var mrm: Option<DataBlock>
    var prd: Option<DataBlock>
    var ttw: Option<DataBlock>
    var wbg: Option<DataBlock>
    var rif: Option<DataBlock>
    var pad: Option<DataBlock>
    var version: seq<Byte>

    constructor (data: seq<Byte>, big: bool)
      ensures this.data == data && this.big == big && pos == 0 && version == []
      ensures mrm == None && Kept([])
    {
      this.data, this.big, pos, version := data, big, 0, [];
      mrm, prd, ttw, wbg, rif, pad := None, None, None, None, None, None;
    }

    /** The fields hold the last of these blocks of each name. */
    ghost predicate Kept(blocks: seq<DataBlock>)
      reads this
    {
      && prd == LastNamed(blocks, PRD)
      && ttw == LastNamed(blocks, TTW)
      && wbg == LastNamed(blocks, WBG)
      && rif == LastNamed(blocks, RIF)
      && pad == LastNamed(blocks, PAD)
    }

    /** Loads the block header at the position of the view. */
    method LoadBlock(offset: nat) returns (r: Result<DataBlock>)
      requires offset == pos
      modifies this`pos
      ensures r == match BlockAt(data, big, offset) case None => Eof case Some(block) => Ok(block)
    {
      if pos + 4 > |data| {
        return Eof;
      }
      var name := data[pos..pos + 4];
      pos := pos + 4;
      if pos + 4 > |data| {
        return Eof;
      }
      var length := U32(big, data[pos..pos + 4]);
      pos := pos + 4;
      r := Ok(DataBlock(offset, name, length));
    }

    /** Walks over all blocks and keeps those with a known name; then reads the version out of the PRD block. */
    method Load() returns (r: Result<()>)
      requires pos == 0 && version == [] && Kept([])
      modifies this
      ensures var first := BlockAt(data, big, 0);
              && (first == None ==> r == Eof)
              && (first.Some? ==>
                    var found := Walk(data, big, HEADER, first.value.length);
                    && (found == Eof ==> r == Eof)
                    && (found.Ok? ==>
                          && mrm == first && Kept(found.value)
                          && (r.Ok? <==> prd == None || prd.value.offset + HEADER + 8 <= |data|)
                          && (r.Ok? ==> version == if prd == None then []
                                                   else data[prd.value.offset + HEADER..prd.value.offset + HEADER + 8])))
      ensures r.Ok? ==> mrm.Some? && RawDataOffset() == HEADER + mrm.value.length
    {
      hide LastNamed, Named, BlockAt, Walk;
      var block := LoadBlock(0);
      if block.Eof? {
        return Eof;
      }
      var end := block.value.length;
      mrm := Some(block.value);
      var position := HEADER;
      ghost var seen: seq<DataBlock> := [];
      WalkBegin(Walk(data, big, HEADER, end));
      while position < end
        invariant version == [] && mrm == BlockAt(data, big, 0) && Kept(seen)
        invariant Walk(data, big, HEADER, end) == Joined(seen, Walk(data, big, position, end))
        decreases end - position
      {
        WalkStep(data, big, position, end, seen);
        pos := position;
        block := LoadBlock(position);
        if block.Eof? {
          return Eof;
        }
        position := position + block.value.length + HEADER;
        Keep(block.value, seen);
        seen := seen + [block.value];
      }
      WalkEnd(data, big, position, end, seen);
      if prd.Some? {
        pos := prd.value.offset + HEADER + 0;
        if pos + 8 > |data| {
          return Eof;
        }
        version := data[pos..pos + 8];
        pos := pos + 8;
      }
      r := Ok(());
    }

    /** Puts a block into the field of its name, over what is there. */
    method Keep(block: DataBlock, ghost seen: seq<DataBlock>)
      requires Kept(seen)
      modifies this
      ensures Kept(seen + [block]) && pos == old(pos) && mrm == old(mrm) && version == old(version)
    {
      hide LastNamed;
      NextNamed(seen, block);
      TagsDiffer();
      if Named(block, PRD) {
        prd := Some(block);
      } else if Named(block, TTW) {
        ttw := Some(block);
      } else if Named(block, WBG) {
        wbg := Some(block);
      } else if Named(block, RIF) {
        rif := Some(block);
      } else if Named(block, PAD) {
        pad := Some(block);
      }
    }

    /** Where the raw data starts: behind the MRM block. */
    function RawDataOffset(): nat
      reads this
    {
      HEADER + if mrm.Some? then mrm.value.length else 0
    }
  }

  lemma TagsDiffer()
    ensures PRD != TTW && PRD != WBG && PRD != RIF && PRD != PAD && TTW != WBG && TTW != RIF && TTW != PAD
    ensures WBG != RIF && WBG != PAD && RIF != PAD
  {
    assert PRD[1] != TTW[1] && PRD[1] != WBG[1] && PRD[1] != RIF[1] && PRD[1] != PAD[1];
    assert TTW[0] != WBG[0] && TTW[0] != RIF[0] && TTW[0] != PAD[0];
    assert WBG[0] != RIF[0] && WBG[0] != PAD[0] && RIF[0] != PAD[0];
  }

  lemma NextNamed(seen: seq<DataBlock>, block: DataBlock)
    ensures forall tag: seq<Byte> :: LastNamed(seen + [block], tag)
                                  == if Named(block, tag) then Some(block) else LastNamed(seen, tag)
  {
    assert (seen + [block])[..|seen|] == seen;
  }

  // ----- the files that are walked

  /** A block to be written: four name bytes and a payload. */
  datatype Content = Content(name: seq<Byte>, payload: seq<Byte>)

  ghost predicate Writable(blocks: seq<Content>) {
    forall i :: 0 <= i < |blocks| ==> |blocks[i].name| == 4 && |blocks[i].payload| < 0x1_0000_0000
  }

  function Serialize(big: bool, blocks: seq<Content>): seq<Byte>
    requires Writable(blocks)
  {
    if blocks == [] then []
    else blocks[0].name + U32Bytes(big, |blocks[0].payload|) + blocks[0].payload + Serialize(big, blocks[1..])
  }

  /** The blocks as they should be found when the first starts at `pos`. */
  function Headers(blocks: seq<Content>, pos: nat): (headers: seq<DataBlock>)
    ensures |headers| == |blocks|
  {
    if blocks == [] then []
    else
      var length := |blocks[0].payload|;
      [DataBlock(pos, blocks[0].name, length)] + Headers(blocks[1..], pos + length + HEADER)
  }

  /** The blocks the walk reaches: all, or all but a last one without payload. */
  function Reached(blocks: seq<Content>): seq<Content> {
    if blocks != [] && blocks[|blocks| - 1].payload == [] then blocks[..|blocks| - 1] else blocks
  }

  lemma FirstHeader(big: bool, pre: seq<Byte>, blocks: seq<Content>, post: seq<Byte>)
    requires Writable(blocks) && blocks != []
    ensures BlockAt(pre + Serialize(big, blocks) + post, big, |pre|)
         == Some(DataBlock(|pre|, blocks[0].name, |blocks[0].payload|))
    ensures var head := blocks[0].name + U32Bytes(big, |blocks[0].payload|) + blocks[0].payload;
            pre + Serialize(big, blocks) + post == (pre + head) + Serialize(big, blocks[1..]) + post
    ensures |Serialize(big, blocks)| == HEADER + |blocks[0].payload| + |Serialize(big, blocks[1..])|
  {
    hide U32Bytes, BlockAt, Serialize, Writable;
    var name, length, payload := blocks[0].name, |blocks[0].payload|, blocks[0].payload;
    SerializeStep(big, blocks);
    var tail := Serialize(big, blocks[1..]);
    Regroup(pre, name, U32Bytes(big, length), payload, tail, post);
    BlockInBytes(big, pre, name, length, payload + tail + post);
  }

  lemma SerializeStep(big: bool, blocks: seq<Content>)
    requires Writable(blocks) && blocks != []
    ensures Writable(blocks[1..]) && |blocks[0].name| == 4 && |blocks[0].payload| < 0x1_0000_0000
    ensures Serialize(big, blocks)
         == blocks[0].name + U32Bytes(big, |blocks[0].payload|) + blocks[0].payload + Serialize(big, blocks[1..])
  {
    hide U32Bytes;
  }

  lemma Regroup(pre: seq<Byte>, name: seq<Byte>, size: seq<Byte>, payload: seq<Byte>, tail: seq<Byte>, post: seq<Byte>)
    ensures pre + (name + size + payload + tail) + post == pre + name + size + (payload + tail + post)
    ensures pre + (name + size + payload + tail) + post == (pre + (name + size + payload)) + tail + post
  {
  }

  lemma BlockInBytes(big: bool, pre: seq<Byte>, name: seq<Byte>, length: nat, rest: seq<Byte>)
    requires |name| == 4 && length < 0x1_0000_0000
    ensures BlockAt(pre + name + U32Bytes(big, length) + rest, big, |pre|) == Some(DataBlock(|pre|, name, length))
  {
    hide U32, U32Bytes;
    var data := pre + name + U32Bytes(big, length) + rest;
    assert data[|pre|..|pre| + 4] == name && data[|pre| + 4..|pre| + 8] == U32Bytes(big, length);
    U32RoundTrip(big, length);
  }

  /** The walk finds the serialised blocks, in order and at their places, up to a last one without payload. */
  lemma {:induction false} WalkFindsBlocks(big: bool, pre: seq<Byte>, blocks: seq<Content>, post: seq<Byte>)
    requires Writable(blocks) && |pre| >= HEADER
    ensures Walk(pre + Serialize(big, blocks) + post, big, |pre|, |pre| - HEADER + |Serialize(big, blocks)|)
         == Ok(Headers(Reached(blocks), |pre|))
    decreases |blocks|
  {
    hide BlockAt, U32Bytes, Serialize, Writable, Walk, Reached, Headers;
    var data, end := pre + Serialize(big, blocks) + post, |pre| - HEADER + |Serialize(big, blocks)|;
    ReachedStep(blocks, |pre|);
    if blocks == [] {
      NothingSerialized(big, blocks);
      WalkOne(data, big, |pre|, end);
    } else {
      FirstHeader(big, pre, blocks, post);
      SerializeStep(big, blocks);
      var head := blocks[0].name + U32Bytes(big, |blocks[0].payload|) + blocks[0].payload;
      assert |head| == HEADER + |blocks[0].payload|;
      WalkFindsBlocks(big, pre + head, blocks[1..], post);
      WalkOne(data, big, |pre|, end);
      if |blocks| > 1 {
        FirstHeader(big, pre + head, blocks[1..], post);
      } else {
        NothingSerialized(big, blocks[1..]);
      }
    }
  }

  lemma WalkOne(data: seq<Byte>, big: bool, pos: nat, end: nat)
    ensures pos >= end ==> Walk(data, big, pos, end) == Ok([])
    ensures pos < end && BlockAt(data, big, pos).Some? ==>
              var block := BlockAt(data, big, pos).value;
              Walk(data, big, pos, end) == match Walk(data, big, pos + block.length + HEADER, end)
                                           case Eof => Eof
                                           case Ok(rest) => Ok([block] + rest)
  {
    hide BlockAt;
  }

  lemma ReachedStep(blocks: seq<Content>, pos: nat)
    ensures blocks == [] ==> Headers(Reached(blocks), pos) == []
    ensures |blocks| == 1 && blocks[0].payload == [] ==> Headers(Reached(blocks), pos) == []
    ensures |blocks| > 1 || (|blocks| == 1 && blocks[0].payload != []) ==>
              var length := |blocks[0].payload|;
              Headers(Reached(blocks), pos)
              == [DataBlock(pos, blocks[0].name, length)] + Headers(Reached(blocks[1..]), pos + length + HEADER)
  {
    if |blocks| > 1 {
      assert Reached(blocks)[1..] == Reached(blocks[1..]);
    }
  }

  /** A file: the MRM header with the size of the blocks, the blocks, and whatever follows them. */
  function MrwFile(big: bool, name: seq<Byte>, blocks: seq<Content>, raw: seq<Byte>): seq<Byte>
    requires Writable(blocks) && |Serialize(big, blocks)| < 0x1_0000_0000
  {
    name + U32Bytes(big, |Serialize(big, blocks)|) + Serialize(big, blocks) + raw
  }

  /** Every block of a file is found if and only if there is none or the last one has a payload. */
  lemma FileWalk(big: bool, name: seq<Byte>, blocks: seq<Content>, raw: seq<Byte>)
    requires Writable(blocks) && |Serialize(big, blocks)| < 0x1_0000_0000 && |name| == 4
    ensures var data := MrwFile(big, name, blocks, raw);
            var size := |Serialize(big, blocks)|;
            && HEADER + size <= |data|
            && BlockAt(data, big, 0) == Some(DataBlock(0, name, size)) && data[HEADER + size..] == raw
            && Walk(data, big, HEADER, size) == Ok(Headers(Reached(blocks), HEADER))
            && (Walk(data, big, HEADER, size) == Ok(Headers(blocks, HEADER))
                <==> blocks == [] || blocks[|blocks| - 1].payload != [])
            && (blocks != [] && blocks[|blocks| - 1].payload == [] ==>
                  Walk(data, big, HEADER, size) == Ok(Headers(blocks, HEADER)[..|blocks| - 1]))
  {
    hide U32Bytes, Serialize, Walk, BlockAt;
    var size := U32Bytes(big, |Serialize(big, blocks)|);
    var data := MrwFile(big, name, blocks, raw);
    assert data == (name + size) + Serialize(big, blocks) + raw;
    assert data == [] + name + size + (Serialize(big, blocks) + raw);
    BlockInBytes(big, [], name, |Serialize(big, blocks)|, Serialize(big, blocks) + raw);
    WalkFindsBlocks(big, name + size, blocks, raw);
    assert |Headers(Reached(blocks), HEADER)| == |Reached(blocks)|;
    if blocks != [] {
      HeadersPrefix(blocks, HEADER);
    }
  }

  lemma {:induction false} HeadersPrefix(blocks: seq<Content>, pos: nat)
    requires blocks != []
    ensures Headers(blocks[..|blocks| - 1], pos) == Headers(blocks, pos)[..|blocks| - 1]
    decreases |blocks|
  {
    if |blocks| > 1 {
      HeadersPrefix(blocks[1..], pos + |blocks[0].payload| + HEADER);
      assert blocks[..|blocks| - 1][1..] == blocks[1..][..|blocks| - 2];
    }
  }

  /** The blocks tile the bytes from the first to the start of the raw data. */
  lemma {:induction false} HeadersTile(big: bool, blocks: seq<Content>, pos: nat)
    requires Writable(blocks)
    ensures var h := Headers(blocks, pos);
            && (forall i :: 0 <= i < |h| ==> h[i].name == blocks[i].name && h[i].length == |blocks[i].payload|)
            && (forall i :: 0 < i < |h| ==> h[i].offset == h[i - 1].offset + 8 + h[i - 1].length)
            && (h != [] ==> h[0].offset == pos)
            && pos + |Serialize(big, blocks)|
               == if h == [] then pos else h[|h| - 1].offset + 8 + h[|h| - 1].length
  {
    hide U32Bytes, Serialize, Writable;
    if blocks == [] {
      NothingSerialized(big, blocks);
    } else {
      SerializeStep(big, blocks);
      HeadersTile(big, blocks[1..], pos + |blocks[0].payload| + HEADER);
    }
  }

  lemma NothingSerialized(big: bool, blocks: seq<Content>)
    requires blocks == []
    ensures Writable(blocks) && Serialize(big, blocks) == []
  {
  }

  /** A file that is loaded knows where its raw data starts: where its last block ends, found or not. */
  method LoadFile(big: bool, name: seq<Byte>, blocks: seq<Content>, raw: seq<Byte>)
    returns (c: MrwContainer, r: Result<()>)
    requires Writable(blocks) && |Serialize(big, blocks)| < 0x1_0000_0000 && |name| == 4
    ensures c.data == MrwFile(big, name, blocks, raw) && c.big == big
    ensures r.Ok? ==>
              var start, h := c.RawDataOffset(), Headers(blocks, HEADER);
              && c.Kept(Headers(Reached(blocks), HEADER))
              && start == HEADER + |Serialize(big, blocks)| <= |c.data| && c.data[start..] == raw
              && start == if h == [] then HEADER else h[|h| - 1].offset + HEADER + h[|h| - 1].length
  {
    hide Serialize, Writable, U32Bytes, Walk, BlockAt, Headers, Reached, MrwFile, MrwContainer.Kept;
    FileWalk(big, name, blocks, raw);
    HeadersTile(big, blocks, HEADER);
    c := new MrwContainer(MrwFile(big, name, blocks, raw), big);
    r := c.Load();
  }

  /** Of a file with one block and no payload in it, no block is found. */
  lemma EmptyBlockMissed(big: bool, raw: seq<Byte>)
    ensures var blocks := [Content([0] + PRD, [])];
            && Writable(blocks) && |Serialize(big, blocks)| == HEADER
            && Headers(blocks, HEADER) == [DataBlock(HEADER, [0] + PRD, 0)]
            && Walk(MrwFile(big, [0, 0x4d, 0x52, 0x4d], blocks, raw), big, HEADER, HEADER) == Ok([])
  {
    hide U32Bytes;
    var blocks := [Content([0] + PRD, [])];
    SerializeStep(big, blocks);
    assert blocks[1..] == [];
  }

  /** The kept block of a name is the last one that carries it. */
  lemma {:induction false} LastOneWins(blocks: seq<DataBlock>, tag: seq<Byte>, i: nat)
    requires i < |blocks|
    requires Named(blocks[i], tag) && forall j :: i < j < |blocks| ==> !Named(blocks[j], tag)
    ensures LastNamed(blocks, tag) == Some(blocks[i])
    decreases |blocks|
  {
    if i < |blocks| - 1 {
      LastOneWins(blocks[..|blocks| - 1], tag, i);
    }
  }

  /** Which block is kept as which, by the three letters behind the first byte of its name: the last of all blocks with
      the letters PRD, TTW, WBG, RIF or PAD. */
  lemma KeptByName(c: MrwContainer, blocks: seq<DataBlock>, i: nat)
    requires c.Kept(blocks) && i < |blocks| && |blocks[i].name| == 4
    requires forall j :: i < j < |blocks| ==> |blocks[j].name| == 4 && blocks[j].name[1..] != blocks[i].name[1..]
    ensures blocks[i].name[1..] == [0x50, 0x52, 0x44] ==> c.prd == Some(blocks[i])
    ensures blocks[i].name[1..] == [0x54, 0x54, 0x57] ==> c.ttw == Some(blocks[i])
    ensures blocks[i].name[1..] == [0x57, 0x42, 0x47] ==> c.wbg == Some(blocks[i])
    ensures blocks[i].name[1..] == [0x52, 0x49, 0x46] ==> c.rif == Some(blocks[i])
    ensures blocks[i].name[1..] == [0x50, 0x41, 0x44] ==> c.pad == Some(blocks[i])
  {
    hide LastNamed;
    LastOneWins(blocks, blocks[i].name[1..], i);
  }

  /** A name that no block has leaves nothing kept. */
  lemma NoneKept(c: MrwContainer, blocks: seq<DataBlock>, letters: seq<Byte>)
    requires c.Kept(blocks) && forall j :: 0 <= j < |blocks| ==> |blocks[j].name| == 4 && blocks[j].name[1..] != letters
    ensures letters == [0x50, 0x52, 0x44] ==> c.prd == None
    ensures letters == [0x54, 0x54, 0x57] ==> c.ttw == None
    ensures letters == [0x57, 0x42, 0x47] ==> c.wbg == None
    ensures letters == [0x52, 0x49, 0x46] ==> c.rif == None
    ensures letters == [0x50, 0x41, 0x44] ==> c.pad == None
  {
    hide LastNamed;
    NotNamed(blocks, letters);
  }

  lemma {:induction false} NotNamed(blocks: seq<DataBlock>, tag: seq<Byte>)
    requires forall j :: 0 <= j < |blocks| ==> !Named(blocks[j], tag)
    ensures LastNamed(blocks, tag) == None
    decreases |blocks|
  {
    if blocks != [] {
      NotNamed(blocks[..|blocks| - 1], tag);
    }
  }
}
