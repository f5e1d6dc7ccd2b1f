/** One block of 64 differences: the token loop of the decoder and the encoder it undoes. */
module CanonBlock {
  import opened Bits
  import opened CanonHuffman

  /** The table specifications for the first and for the other entries of a block. */
  datatype Tables = Tables(first: seq<Byte>, second: seq<Byte>)

  const BLOCK := 64
  const END_OF_BLOCK: Byte := 0x00
  const SIXTEEN_ZEROS: Byte := 0xf0
  const SKIP: Byte := 0xff

  /** A specification whose code is not over-full and names a symbol for every code. */
  ghost predicate ValidSource(source: seq<Byte>) {
    && |source| >= 16
    && var lens := SourceLengths(source);
       Space(lens, |lens|) <= WHOLE && |lens| <= |source| - 16
  }

  ghost predicate ValidTables(tb: Tables)
    ensures ValidTables(tb) ==> ValidSource(tb.first) && ValidSource(tb.second)
    ensures ValidTables(tb) ==> |tb.first| >= 16 && |tb.second| >= 16
  {
    ValidSource(tb.first) && ValidSource(tb.second)
  }

  function Source(tb: Tables, i: nat): seq<Byte> {
    if i == 0 then tb.first else tb.second
  }

  // ----- symbols

  /** What a terminal node decodes to; an unfilled node has kept its initial 0. */
  function SymbolOf(source: seq<Byte>, t: Tree): Byte {
    if t.Leaf? && 16 + t.k < |source| then source[16 + t.k] else 0
  }

  function ReadSymbol(source: seq<Byte>, s: Stream, off: nat): (Byte, nat)
    requires |source| >= 16
  {
    var (t, next) := Walk(DecodeTree(SourceLengths(source)), s, off);
    (SymbolOf(source, t), next)
  }

  /** Code `k` of the specification stands for `symbol`. */
  predicate Names(source: seq<Byte>, k: nat, symbol: nat) {
    16 + k < |source| && source[16 + k] == symbol
  }

  ghost predicate HasCode(source: seq<Byte>, symbol: nat)
    requires ValidSource(source)
  {
    exists k: nat :: k < |SourceLengths(source)| && Names(source, k, symbol)
  }

  ghost function SymbolCode(source: seq<Byte>, symbol: nat): seq<bool>
    requires ValidSource(source) && HasCode(source, symbol)
  {
    var k: nat :| k < |SourceLengths(source)| && Names(source, k, symbol);
    CodeBits(SourceLengths(source), k)
  }

  lemma SymbolReadsBack(source: seq<Byte>, symbol: nat, s: Stream, off: nat)
    requires ValidSource(source) && HasCode(source, symbol)
    requires Carries(s, off, SymbolCode(source, symbol))
    ensures ReadSymbol(source, s, off) == (symbol, off + |SymbolCode(source, symbol)|)
  {
    hide CodeLengths, Code, Space, SourceLengths, Carries, Walk, DecodeTree;
    var lens := SourceLengths(source);
    var k: nat :| k < |lens| && Names(source, k, symbol) && SymbolCode(source, symbol) == CodeBits(lens, k);
    CodeReadsBack(lens, k, s, off);
  }

  // ----- signed values

  function BitLength(n: nat): nat {
    if n == 0 then 0 else 1 + BitLength(n / 2)
  }

  /** The number of bits needed to represent the magnitude of `d`. */
  function Size(d: int): nat {
    BitLength(if d < 0 then -d else d)
  }

  /** The value bits of `d`: itself, or for a negative `d` its distance above the least value of that size. */
  function ValueBits(d: int): (bits: seq<bool>)
    ensures |bits| == Size(d)
  {
    BitLengthBounds(if d < 0 then -d else d);
    ToBits(if d < 0 then d + Pow2(Size(d)) - 1 else d, Size(d))
  }

  /** A value whose top bit is clear stands for a negative number. */
  function Extend(v: nat, len: nat): int
    requires len >= 1
  {
    if Div(v, Pow2(len - 1)) % 2 == 0 then v - (Pow2(len) - 1) else v
  }

  lemma {:induction false} BitLengthBounds(n: nat)
    ensures n < Pow2(BitLength(n))
    ensures n > 0 ==> BitLength(n) >= 1 && Pow2(BitLength(n) - 1) <= n
  {
    if n > 0 {
      BitLengthBounds(n / 2);
    }
  }

  lemma {:induction false} BitLengthAtMost(n: nat, len: nat)
    requires n < Pow2(len)
    ensures BitLength(n) <= len
  {
    if n > 0 {
      BitLengthAtMost(n / 2, len - 1);
    }
  }

  lemma SizeOfZero()
    ensures Size(0) == 0
  {
  }

  lemma TopBit(v: nat, h: nat)
    requires 0 < h && v < 2 * h
    ensures Div(v, h) % 2 == 0 <==> v < h
  {
    hide Div, Mod;
    if v < h {
      DivModUnique(0, h, v);
    } else {
      DivModUnique(1, h, v - h);
    }
  }

  /** Extending the value bits of a nonzero number gives the number back. */
  lemma ExtendUndoesValueBits(d: int)
    requires d != 0
    ensures Size(d) >= 1
    ensures Extend(Value(ValueBits(d)), Size(d)) == d
  {
    var n, len := if d < 0 then -d else d, Size(d);
    BitLengthBounds(n);
    assert Pow2(len) == 2 * Pow2(len - 1);
    hide Pow2, Div, ToBits, BitLength, Value;
    var v := if d < 0 then d + Pow2(len) - 1 else d;
    ValueOfToBits(v, len);
    TopBit(v, Pow2(len - 1));
  }

  /** What a value of `len` bits stands for: itself if its top bit is set, else a negative number. */
  lemma ExtendIs(v: nat, len: nat)
    requires len >= 1 && v < Pow2(len)
    ensures v >= Pow2(len - 1) ==> Extend(v, len) == v
    ensures v < Pow2(len - 1) ==> Extend(v, len) == v - Pow2(len) + 1
  {
    assert Pow2(len) == 2 * Pow2(len - 1);
    hide Pow2, Div;
    TopBit(v, Pow2(len - 1));
  }

  /** The size of a number is the least number of bits its magnitude fits. */
  lemma SizeIs(d: int)
    ensures Size(0) == 0
    ensures d != 0 ==> Size(d) >= 1 && Pow2(Size(d) - 1) <= (if d < 0 then -d else d) < Pow2(Size(d))
  {
    BitLengthBounds(if d < 0 then -d else d);
  }

  // ----- the token loop

  /** Decoding from entry `i` of a block on, with the entries found so far in `buf`. */
  function DecodeEntries(tb: Tables, s: Stream, off: nat, i: nat, buf: seq<int>): (r: (seq<int>, nat))
    requires |tb.first| >= 16 && |tb.second| >= 16
    requires |buf| == BLOCK
    ensures |r.0| == BLOCK
    decreases BLOCK - i
  {
    if i >= BLOCK then (buf, off)
    else
      var (leaf, next) := ReadSymbol(Source(tb, i), s, off);
      if leaf == END_OF_BLOCK && i != 0 then (buf, next)
      else if leaf == SKIP then DecodeEntries(tb, s, next, i + 1, buf)
      else
        var j, len := i + leaf / 16, leaf % 16;
        if len == 0 then DecodeEntries(tb, s, next, j + 1, buf)
        else
          var diff := Extend(Value(Window(s, next, len)), len);
          DecodeEntries(tb, s, next + len, j + 1, if j < BLOCK then buf[j := diff] else buf)
  }

  function ZeroBlock(): seq<int> {
    seq(BLOCK, _ => 0)
  }

  function DecodeBlock(tb: Tables, s: Stream, off: nat): (r: (seq<int>, nat))
    requires |tb.first| >= 16 && |tb.second| >= 16
    ensures |r.0| == BLOCK
  {
    DecodeEntries(tb, s, off, 0, ZeroBlock())
  }

  /** What each leaf does at entry `i`: 0x00 ends the block unless it is the first entry, 0xff passes one entry, 0xf0
      sixteen; any other has the number of entries to pass in its high nibble and the size of a value in its low one. */
  lemma LeafCases(tb: Tables, s: Stream, off: nat, i: nat, buf: seq<int>, leaf: nat, next: nat, run: nat, len: nat)
    requires |tb.first| >= 16 && |tb.second| >= 16 && |buf| == 64 && i < 64
    requires ReadSymbol(if i == 0 then tb.first else tb.second, s, off) == (leaf, next)
    ensures leaf == 0x00 && i > 0 ==> DecodeEntries(tb, s, off, i, buf) == (buf, next)
    ensures leaf == 0x00 && i == 0 ==> DecodeEntries(tb, s, off, i, buf) == DecodeEntries(tb, s, next, 1, buf)
    ensures leaf == 0xff ==> DecodeEntries(tb, s, off, i, buf) == DecodeEntries(tb, s, next, i + 1, buf)
    ensures leaf == 0xf0 ==> DecodeEntries(tb, s, off, i, buf) == DecodeEntries(tb, s, next, i + 16, buf)
    ensures leaf == 16 * run + len && 1 <= len < 16 && leaf != 0xff ==>
              var diff := Extend(Value(Window(s, next, len)), len);
              DecodeEntries(tb, s, off, i, buf)
              == DecodeEntries(tb, s, next + len, i + run + 1, if i + run < 64 then buf[i + run := diff] else buf)
    ensures DecodeBlock(tb, s, off) == DecodeEntries(tb, s, off, 0, seq(64, _ => 0))
  {
    hide ReadSymbol, Window, Value, Extend;
    assert ZeroBlock() == seq(64, _ => 0);
    if leaf == 16 * run + len && 1 <= len < 16 {
      assert leaf / 16 == run && leaf % 16 == len;
    }
  }

  // ----- the encoder

  /** The number of zero entries from `i` on. */
  function ZeroRun(block: seq<int>, i: nat): (run: nat)
    requires i <= |block|
    ensures i + run <= |block|
    ensures forall j :: i <= j < i + run ==> block[j] == 0
    ensures i + run < |block| ==> block[i + run] != 0
    decreases |block| - i
  {
    if i == |block| || block[i] != 0 then 0 else 1 + ZeroRun(block, i + 1)
  }

  /** A value follows its token: high nibble the zeros before it, low nibble its size. */
  ghost predicate TokenFits(source: seq<Byte>, run: nat, d: int)
    requires ValidSource(source)
  {
    run < 16 && Size(d) < 16 && 16 * run + Size(d) != SKIP && HasCode(source, 16 * run + Size(d))
  }

  ghost function TokenBits(source: seq<Byte>, run: nat, d: int): seq<bool>
    requires ValidSource(source) && TokenFits(source, run, d)
  {
    SymbolCode(source, 16 * run + Size(d)) + ValueBits(d)
  }

  /** The tables have codes for all tokens of the block from entry `i` on. */
  ghost predicate Encodable(tb: Tables, block: seq<int>, i: nat)
    requires ValidTables(tb) && |block| == BLOCK && i <= BLOCK
    decreases BLOCK - i
  {
    if i == BLOCK then true
    else if i == 0 then TokenFits(tb.first, 0, block[0]) && Encodable(tb, block, 1)
    else
      var run := ZeroRun(block, i);
      if i + run == BLOCK then HasCode(tb.second, END_OF_BLOCK)
      else if run >= 16 then HasCode(tb.second, SIXTEEN_ZEROS) && Encodable(tb, block, i + 16)
      else TokenFits(tb.second, run, block[i + run]) && Encodable(tb, block, i + run + 1)
  }

  ghost function EncodeEntries(tb: Tables, block: seq<int>, i: nat): seq<bool>
    requires ValidTables(tb) && |block| == BLOCK && i <= BLOCK
    requires Encodable(tb, block, i)
    decreases BLOCK - i
  {
    if i == BLOCK then []
    else if i == 0 then TokenBits(tb.first, 0, block[0]) + EncodeEntries(tb, block, 1)
    else
      var run := ZeroRun(block, i);
      if i + run == BLOCK then SymbolCode(tb.second, END_OF_BLOCK)
      else if run >= 16 then SymbolCode(tb.second, SIXTEEN_ZEROS) + EncodeEntries(tb, block, i + 16)
      else TokenBits(tb.second, run, block[i + run]) + EncodeEntries(tb, block, i + run + 1)
  }

  ghost function EncodeBlock(tb: Tables, block: seq<int>): seq<bool>
    requires ValidTables(tb) && |block| == BLOCK && Encodable(tb, block, 0)
  {
    EncodeEntries(tb, block, 0)
  }

  // ----- the round trip

  lemma TokenStep(tb: Tables, s: Stream, off: nat, i: nat, buf: seq<int>, run: nat, size: nat, next: nat)
    requires |tb.first| >= 16 && |tb.second| >= 16
    requires |buf| == BLOCK && i + run < BLOCK && run < 16 && size < 16
    requires ReadSymbol(Source(tb, i), s, off) == (16 * run + size, next)
    requires (i > 0 ==> size > 0) && 16 * run + size != SKIP
    ensures DecodeEntries(tb, s, off, i, buf)
         == DecodeEntries(tb, s, next + size, i + run + 1,
                          if size == 0 then buf else buf[i + run := Extend(Value(Window(s, next, size)), size)])
  {
    hide ReadSymbol, Window, Value, Extend;
    assert (16 * run + size) / 16 == run && (16 * run + size) % 16 == size;
  }

  /** A token read from entry `i` on sets the entry behind its zeros and goes on after it. */
  lemma TokenReadsBack(tb: Tables, s: Stream, off: nat, i: nat, buf: seq<int>, run: nat, d: int)
    requires ValidTables(tb) && |buf| == BLOCK && i + run < BLOCK
    requires TokenFits(Source(tb, i), run, d) && (i > 0 ==> d != 0)
    requires Carries(s, off, TokenBits(Source(tb, i), run, d))
    requires d == 0 ==> buf[i + run] == 0
    ensures DecodeEntries(tb, s, off, i, buf)
         == DecodeEntries(tb, s, off + |TokenBits(Source(tb, i), run, d)|, i + run + 1, buf[i + run := d])
  {
    hide DecodeEntries, ValidSource, ValidTables, HasCode, SymbolCode, ReadSymbol, Size, ValueBits, Extend, Carries, Window;
    var source := Source(tb, i);
    var code := SymbolCode(source, 16 * run + Size(d));
    SizeOfZero();
    CarriesSplit(s, off, code, ValueBits(d));
    SymbolReadsBack(source, 16 * run + Size(d), s, off);
    if d != 0 {
      CarriesWindow(s, off + |code|, ValueBits(d));
      ExtendUndoesValueBits(d);
    } else {
      assert buf[i + run := d] == buf;
    }
    TokenStep(tb, s, off, i, buf, run, Size(d), off + |code|);
  }

  lemma SixteenZerosReadBack(tb: Tables, s: Stream, off: nat, i: nat, buf: seq<int>)
    requires ValidTables(tb) && |buf| == BLOCK && 0 < i && i + 16 <= BLOCK
    requires HasCode(tb.second, SIXTEEN_ZEROS)
    requires Carries(s, off, SymbolCode(tb.second, SIXTEEN_ZEROS))
    ensures DecodeEntries(tb, s, off, i, buf)
         == DecodeEntries(tb, s, off + |SymbolCode(tb.second, SIXTEEN_ZEROS)|, i + 16, buf)
  {
    hide SourceLengths, Space, HasCode, SymbolCode, ReadSymbol, Carries, Window;
    SymbolReadsBack(tb.second, SIXTEEN_ZEROS, s, off);
  }

  lemma EndReadsBack(tb: Tables, s: Stream, off: nat, i: nat, buf: seq<int>)
    requires ValidTables(tb) && |buf| == BLOCK && 0 < i < BLOCK
    requires HasCode(tb.second, END_OF_BLOCK)
    requires Carries(s, off, SymbolCode(tb.second, END_OF_BLOCK))
    ensures DecodeEntries(tb, s, off, i, buf) == (buf, off + |SymbolCode(tb.second, END_OF_BLOCK)|)
  {
    hide SourceLengths, Space, HasCode, SymbolCode, ReadSymbol, Carries, Window;
    SymbolReadsBack(tb.second, END_OF_BLOCK, s, off);
  }

  /** The encoding from entry `i` on after one token: the zeros it skips, its bits, and the rest. */
  ghost predicate EncodesAs(tb: Tables, block: seq<int>, i: nat, token: seq<bool>, next: nat)
    requires ValidTables(tb) && |block| == BLOCK && i <= BLOCK && next <= BLOCK
  {
    && Encodable(tb, block, i) && Encodable(tb, block, next)
    && EncodeEntries(tb, block, i) == token + EncodeEntries(tb, block, next)
  }

  lemma FirstToken(tb: Tables, block: seq<int>)
    requires ValidTables(tb) && |block| == BLOCK && Encodable(tb, block, 0)
    ensures TokenFits(tb.first, 0, block[0])
    ensures EncodesAs(tb, block, 0, TokenBits(tb.first, 0, block[0]), 1)
  {
    hide ValidTables, ValidSource, TokenFits, TokenBits, ZeroRun, HasCode, SymbolCode;
  }

  lemma NextToken(tb: Tables, block: seq<int>, i: nat) returns (run: nat)
    requires ValidTables(tb) && |block| == BLOCK && 0 < i < BLOCK && Encodable(tb, block, i)
    ensures i + run <= BLOCK
    ensures forall j :: i <= j < i + run ==> block[j] == 0
    ensures i + run < BLOCK ==> block[i + run] != 0
    ensures i + run == BLOCK ==>
              && HasCode(tb.second, END_OF_BLOCK)
              && EncodeEntries(tb, block, i) == SymbolCode(tb.second, END_OF_BLOCK)
    ensures 16 <= run < BLOCK - i ==>
              && HasCode(tb.second, SIXTEEN_ZEROS)
              && EncodesAs(tb, block, i, SymbolCode(tb.second, SIXTEEN_ZEROS), i + 16)
    ensures run < 16 && i + run < BLOCK ==>
              && TokenFits(tb.second, run, block[i + run])
              && EncodesAs(tb, block, i, TokenBits(tb.second, run, block[i + run]), i + run + 1)
  {
    hide ValidTables, ValidSource, TokenFits, TokenBits, HasCode, SymbolCode;
    run := ZeroRun(block, i);
  }

  /** From any entry on, the token loop recovers what the encoder wrote and stops right behind it. */
  lemma {:induction false} EntriesRoundTrip(tb: Tables, block: seq<int>, i: nat, buf: seq<int>, s: Stream, off: nat)
    requires ValidTables(tb) && |block| == BLOCK == |buf| && i <= BLOCK
    requires Encodable(tb, block, i)
    requires Carries(s, off, EncodeEntries(tb, block, i))
    requires forall j :: 0 <= j < i ==> buf[j] == block[j]
    requires forall j :: i <= j < BLOCK ==> buf[j] == 0
    ensures DecodeEntries(tb, s, off, i, buf) == (block, off + |EncodeEntries(tb, block, i)|)
    decreases BLOCK - i
  {
    hide DecodeEntries, EncodeEntries, Encodable, ValidTables, ValidSource, HasCode, SymbolCode;
    hide TokenFits, TokenBits, Carries, ZeroRun;
    if i == BLOCK {
      assert buf == block;
      EndOfEntries(tb, block, s, off);
    } else if i == 0 {
      FirstToken(tb, block);
      EntryRoundTrip(tb, block, 0, 0, buf, s, off);
    } else {
      var run := NextToken(tb, block, i);
      if i + run == BLOCK {
        EndReadsBack(tb, s, off, i, buf);
        assert buf == block;
      } else if run >= 16 {
        var code := SymbolCode(tb.second, SIXTEEN_ZEROS);
        CarriesSplit(s, off, code, EncodeEntries(tb, block, i + 16));
        SixteenZerosReadBack(tb, s, off, i, buf);
        EntriesRoundTrip(tb, block, i + 16, buf, s, off + |code|);
      } else {
        EntryRoundTrip(tb, block, i, run, buf, s, off);
      }
    }
  }

  lemma EntryRoundTrip(tb: Tables, block: seq<int>, i: nat, run: nat, buf: seq<int>, s: Stream, off: nat)
    requires ValidTables(tb) && |block| == BLOCK == |buf| && i + run < BLOCK
    requires TokenFits(Source(tb, i), run, block[i + run]) && (i > 0 ==> block[i + run] != 0)
    requires EncodesAs(tb, block, i, TokenBits(Source(tb, i), run, block[i + run]), i + run + 1)
    requires Carries(s, off, EncodeEntries(tb, block, i))
    requires forall j :: 0 <= j < i ==> buf[j] == block[j]
    requires forall j :: i <= j < i + run ==> block[j] == 0
    requires forall j :: i <= j < BLOCK ==> buf[j] == 0
    ensures DecodeEntries(tb, s, off, i, buf) == (block, off + |EncodeEntries(tb, block, i)|)
    decreases BLOCK - i, 0
  {
    hide DecodeEntries, EncodeEntries, Encodable, ValidTables, ValidSource, HasCode, SymbolCode;
    hide TokenFits, TokenBits, Carries;
    var d := block[i + run];
    var token := TokenBits(Source(tb, i), run, d);
    CarriesSplit(s, off, token, EncodeEntries(tb, block, i + run + 1));
    TokenReadsBack(tb, s, off, i, buf, run, d);
    EntriesRoundTrip(tb, block, i + run + 1, buf[i + run := d], s, off + |token|);
  }

  lemma EndOfEntries(tb: Tables, block: seq<int>, s: Stream, off: nat)
    requires ValidTables(tb) && |block| == BLOCK && Encodable(tb, block, BLOCK)
    ensures DecodeEntries(tb, s, off, BLOCK, block) == (block, off)
    ensures EncodeEntries(tb, block, BLOCK) == []
  {
  }

  /** Decoding inverts encoding for every block whose tokens the tables can express. */
  lemma BlockRoundTrip(tb: Tables, block: seq<int>, s: Stream, off: nat)
    requires ValidTables(tb) && |block| == BLOCK && Encodable(tb, block, 0)
    requires Carries(s, off, EncodeBlock(tb, block))
    ensures DecodeBlock(tb, s, off) == (block, off + |EncodeBlock(tb, block)|)
  {
    hide ValidTables, Encodable, EncodeEntries, DecodeEntries, Carries;
    EntriesRoundTrip(tb, block, 0, ZeroBlock(), s, off);
  }
}
