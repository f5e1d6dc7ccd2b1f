/** The tables built into the decompressor, and what they can express. */
module CanonTables {
  import opened Bits
  import opened CanonStream
  import opened CanonHuffman
  import opened CanonBlock
  import opened CanonPredictor
  import opened CanonDecoder

  // ----- the counts of codes of 1 to 16 bits, and the symbols in code order

  const FIRST_COUNTS_A: seq<Byte> := [0, 1, 4, 2, 3, 1, 2, 0, 0, 0, 0, 0, 0, 0, 0, 0]

  const FIRST_SYMBOLS_A: seq<Byte> :=
    [0x04, 0x03, 0x05, 0x06, 0x02, 0x07, 0x01, 0x08, 0x09, 0x00, 0x0a, 0x0b, 0xff]

  const FIRST_COUNTS_B: seq<Byte> := [0, 2, 2, 3, 1, 1, 1, 1, 2, 0, 0, 0, 0, 0, 0, 0]

  const FIRST_SYMBOLS_B: seq<Byte> :=
    [0x03, 0x02, 0x04, 0x01, 0x05, 0x00, 0x06, 0x07, 0x09, 0x08, 0x0a, 0x0b, 0xff]

  const FIRST_COUNTS_C: seq<Byte> := [0, 0, 6, 3, 1, 1, 2, 0, 0, 0, 0, 0, 0, 0, 0, 0]

  const FIRST_SYMBOLS_C: seq<Byte> :=
    [0x06, 0x05, 0x07, 0x04, 0x08, 0x03, 0x09, 0x02, 0x00, 0x0a, 0x01, 0x0b, 0xff]

  const SECOND_COUNTS_A: seq<Byte> := [0, 2, 2, 2, 1, 4, 2, 1, 2, 5, 1, 1, 0, 0, 0, 139]

  const SECOND_SYMBOLS_A: seq<Byte> :=
    [0x03, 0x04, 0x02, 0x05, 0x01, 0x06, 0x07, 0x08] +
    [0x12, 0x13, 0x11, 0x14, 0x09, 0x15, 0x22, 0x00, 0x21, 0x16, 0x0a, 0xf0] +
    [0x23, 0x17, 0x24, 0x31, 0x32, 0x18, 0x19, 0x33, 0x25, 0x41, 0x34, 0x42] +
    [0x35, 0x51, 0x36, 0x37, 0x38, 0x29, 0x79, 0x26, 0x1a, 0x39, 0x56, 0x57] +
    [0x28, 0x27, 0x52, 0x55, 0x58, 0x43, 0x76, 0x59, 0x77, 0x54, 0x61, 0xf9] +
    [0x71, 0x78, 0x75, 0x96, 0x97, 0x49, 0xb7, 0x53, 0xd7, 0x74, 0xb6, 0x98] +
    [0x47, 0x48, 0x95, 0x69, 0x99, 0x91, 0xfa, 0xb8, 0x68, 0xb5, 0xb9, 0xd6] +
    [0xf7, 0xd8, 0x67, 0x46, 0x45, 0x94, 0x89, 0xf8, 0x81, 0xd5, 0xf6, 0xb4] +
    [0x88, 0xb1, 0x2a, 0x44, 0x72, 0xd9, 0x87, 0x66, 0xd4, 0xf5, 0x3a, 0xa7] +
    [0x73, 0xa9, 0xa8, 0x86, 0x62, 0xc7, 0x65, 0xc8, 0xc9, 0xa1, 0xf4, 0xd1] +
    [0xe9, 0x5a, 0x92, 0x85, 0xa6, 0xe7, 0x93, 0xe8, 0xc1, 0xc6, 0x7a, 0x64] +
    [0xe1, 0x4a, 0x6a, 0xe6, 0xb3, 0xf1, 0xd3, 0xa5, 0x8a, 0xb2, 0x9a, 0xba] +
    [0x84, 0xa4, 0x63, 0xe5, 0xc5, 0xf3, 0xd2, 0xc4, 0x82, 0xaa, 0xda, 0xe4] +
    [0xf2, 0xca, 0x83, 0xa3, 0xa2, 0xc3, 0xea, 0xc2, 0xe2, 0xe3, 0xff, 0xff]

  const SECOND_COUNTS_B: seq<Byte> := [0, 2, 2, 1, 4, 1, 4, 1, 3, 3, 1, 0, 0, 0, 0, 140]

  const SECOND_SYMBOLS_B: seq<Byte> :=
    [0x02, 0x03, 0x01, 0x04, 0x05, 0x12, 0x11, 0x06] +
    [0x13, 0x07, 0x08, 0x14, 0x22, 0x09, 0x21, 0x00, 0x23, 0x15, 0x31, 0x32] +
    [0x0a, 0x16, 0xf0, 0x24, 0x33, 0x41, 0x42, 0x19, 0x17, 0x25, 0x18, 0x51] +
    [0x34, 0x43, 0x52, 0x29, 0x35, 0x61, 0x39, 0x71, 0x62, 0x36, 0x53, 0x26] +
    [0x38, 0x1a, 0x37, 0x81, 0x27, 0x91, 0x79, 0x55, 0x45, 0x28, 0x72, 0x59] +
    [0xa1, 0xb1, 0x44, 0x69, 0x54, 0x58, 0xd1, 0xfa, 0x57, 0xe1, 0xf1, 0xb9] +
    [0x49, 0x47, 0x63, 0x6a, 0xf9, 0x56, 0x46, 0xa8, 0x2a, 0x4a, 0x78, 0x99] +
    [0x3a, 0x75, 0x74, 0x86, 0x65, 0xc1, 0x76, 0xb6, 0x96, 0xd6, 0x89, 0x85] +
    [0xc9, 0xf5, 0x95, 0xb4, 0xc7, 0xf7, 0x8a, 0x97, 0xb8, 0x73, 0xb7, 0xd8] +
    [0xd9, 0x87, 0xa7, 0x7a, 0x48, 0x82, 0x84, 0xea, 0xf4, 0xa6, 0xc5, 0x5a] +
    [0x94, 0xa4, 0xc6, 0x92, 0xc3, 0x68, 0xb5, 0xc8, 0xe4, 0xe5, 0xe6, 0xe9] +
    [0xa2, 0xa3, 0xe3, 0xc2, 0x66, 0x67, 0x93, 0xaa, 0xd4, 0xd5, 0xe7, 0xf8] +
    [0x88, 0x9a, 0xd7, 0x77, 0xc4, 0x64, 0xe2, 0x98, 0xa5, 0xca, 0xda, 0xe8] +
    [0xf3, 0xf6, 0xa9, 0xb2, 0xb3, 0xf2, 0xd2, 0x83, 0xba, 0xd3, 0xff, 0xff]

  const SECOND_COUNTS_C: seq<Byte> := [0, 0, 6, 2, 1, 3, 3, 2, 5, 1, 2, 2, 8, 10, 0, 117]

  const SECOND_SYMBOLS_C: seq<Byte> :=
    [0x04, 0x05, 0x03, 0x06, 0x02, 0x07, 0x01, 0x08] +
    [0x09, 0x12, 0x13, 0x14, 0x11, 0x15, 0x0a, 0x16, 0x17, 0xf0, 0x00, 0x22] +
    [0x21, 0x18, 0x23, 0x19, 0x24, 0x32, 0x31, 0x25, 0x33, 0x38, 0x37, 0x34] +
    [0x35, 0x36, 0x39, 0x79, 0x57, 0x58, 0x59, 0x28, 0x56, 0x78, 0x27, 0x41] +
    [0x29, 0x77, 0x26, 0x42, 0x76, 0x99, 0x1a, 0x55, 0x98, 0x97, 0xf9, 0x48] +
    [0x54, 0x96, 0x89, 0x47, 0xb7, 0x49, 0xfa, 0x75, 0x68, 0xb6, 0x67, 0x69] +
    [0xb9, 0xb8, 0xd8, 0x52, 0xd7, 0x88, 0xb5, 0x74, 0x51, 0x46, 0xd9, 0xf8] +
    [0x3a, 0xd6, 0x87, 0x45, 0x7a, 0x95, 0xd5, 0xf6, 0x86, 0xb4, 0xa9, 0x94] +
    [0x53, 0x2a, 0xa8, 0x43, 0xf5, 0xf7, 0xd4, 0x66, 0xa7, 0x5a, 0x44, 0x8a] +
    [0xc9, 0xe8, 0xc8, 0xe7, 0x9a, 0x6a, 0x73, 0x4a, 0x61, 0xc7, 0xf4, 0xc6] +
    [0x65, 0xe9, 0x72, 0xe6, 0x71, 0x91, 0x93, 0xa6, 0xda, 0x92, 0x85, 0x62] +
    [0xf3, 0xc5, 0xb2, 0xa4, 0x84, 0xba, 0x64, 0xa5, 0xb3, 0xd2, 0x81, 0xe5] +
    [0xd3, 0xaa, 0xc4, 0xca, 0xf2, 0xb1, 0xe4, 0xd1, 0x83, 0x63, 0xea, 0xc3] +
    [0xe2, 0x82, 0xf1, 0xa3, 0xc2, 0xa1, 0xc1, 0xe3, 0xa2, 0xe1, 0xff, 0xff]

  /** A table number above 2 means table 2. */
  function FirstCounts(table: nat): seq<Byte> {
    if table == 0 then FIRST_COUNTS_A else if table == 1 then FIRST_COUNTS_B else FIRST_COUNTS_C
  }

  function FirstSymbols(table: nat): seq<Byte> {
    if table == 0 then FIRST_SYMBOLS_A else if table == 1 then FIRST_SYMBOLS_B else FIRST_SYMBOLS_C
  }

  function FirstTree(table: nat): seq<Byte> {
    FirstCounts(table) + FirstSymbols(table)
  }

  function SecondCounts(table: nat): seq<Byte> {
    if table == 0 then SECOND_COUNTS_A else if table == 1 then SECOND_COUNTS_B else SECOND_COUNTS_C
  }

  function SecondSymbols(table: nat): seq<Byte> {
    if table == 0 then SECOND_SYMBOLS_A else if table == 1 then SECOND_SYMBOLS_B else SECOND_SYMBOLS_C
  }

  function SecondTree(table: nat): seq<Byte> {
    SecondCounts(table) + SecondSymbols(table)
  }

  function TablesFor(table: nat): Tables {
    Tables(FirstTree(table), SecondTree(table))
  }

  // ----- the codes of the built-in tables

  function Count(c: seq<Byte>, i: nat): nat
    requires i < |c|
  {
    c[i]
  }

  lemma FourCounts(c: seq<Byte>, n: nat)
    requires n + 4 <= |c|
    ensures SumTo(c, n + 4) == SumTo(c, n) + Count(c, n) + Count(c, n + 1) + Count(c, n + 2) + Count(c, n + 3)
    ensures KraftSum(c, n + 4)
         == 16 * KraftSum(c, n) + 8 * Count(c, n) + 4 * Count(c, n + 1) + 2 * Count(c, n + 2) + Count(c, n + 3)
    ensures SumTo(c, 0) == KraftSum(c, 0) == 0
  {
    assert SumTo(c, n + 2) == SumTo(c, n) + Count(c, n) + Count(c, n + 1);
    assert KraftSum(c, n + 2) == 4 * KraftSum(c, n) + 2 * Count(c, n) + Count(c, n + 1);
  }

  lemma SixteenCounts(c: seq<Byte>)
    requires |c| == 16
    ensures SumTo(c, 16) == SumTo(c, 12) + Count(c, 12) + Count(c, 13) + Count(c, 14) + Count(c, 15)
    ensures SumTo(c, 12) == SumTo(c, 8) + Count(c, 8) + Count(c, 9) + Count(c, 10) + Count(c, 11)
    ensures SumTo(c, 8) == Count(c, 0) + Count(c, 1) + Count(c, 2) + Count(c, 3)
                         + Count(c, 4) + Count(c, 5) + Count(c, 6) + Count(c, 7)
    ensures KraftSum(c, 16)
         == 16 * KraftSum(c, 12) + 8 * Count(c, 12) + 4 * Count(c, 13) + 2 * Count(c, 14) + Count(c, 15)
    ensures KraftSum(c, 12)
         == 16 * KraftSum(c, 8) + 8 * Count(c, 8) + 4 * Count(c, 9) + 2 * Count(c, 10) + Count(c, 11)
    ensures KraftSum(c, 8)
         == 16 * KraftSum(c, 4) + 8 * Count(c, 4) + 4 * Count(c, 5) + 2 * Count(c, 6) + Count(c, 7)
    ensures KraftSum(c, 4) == 8 * Count(c, 0) + 4 * Count(c, 1) + 2 * Count(c, 2) + Count(c, 3)
  {
    hide SumTo, KraftSum, Count;
    FourCounts(c, 0);
    FourCounts(c, 4);
    FourCounts(c, 8);
    FourCounts(c, 12);
  }

  lemma FirstCountsA()
    ensures SumTo(FIRST_COUNTS_A, 16) == |FIRST_SYMBOLS_A| == 13
    ensures KraftSum(FIRST_COUNTS_A, 16) == WHOLE
  {
    hide SumTo, KraftSum;
    SixteenCounts(FIRST_COUNTS_A);
  }

  lemma SecondSizeA()
    ensures |SECOND_SYMBOLS_A| == 164
  {
  }

  lemma SecondCountsA()
    ensures SumTo(SECOND_COUNTS_A, 16) == 162
    ensures KraftSum(SECOND_COUNTS_A, 16) <= WHOLE
  {
    hide SumTo, KraftSum;
    SixteenCounts(SECOND_COUNTS_A);
  }

  lemma FirstCountsB()
    ensures SumTo(FIRST_COUNTS_B, 16) == |FIRST_SYMBOLS_B| == 13
    ensures KraftSum(FIRST_COUNTS_B, 16) == WHOLE
  {
    hide SumTo, KraftSum;
    SixteenCounts(FIRST_COUNTS_B);
  }

  lemma SecondSizeB()
    ensures |SECOND_SYMBOLS_B| == 164
  {
  }

  lemma SecondCountsB()
    ensures SumTo(SECOND_COUNTS_B, 16) == 162
    ensures KraftSum(SECOND_COUNTS_B, 16) <= WHOLE
  {
    hide SumTo, KraftSum;
    SixteenCounts(SECOND_COUNTS_B);
  }

  lemma FirstCountsC()
    ensures SumTo(FIRST_COUNTS_C, 16) == |FIRST_SYMBOLS_C| == 13
    ensures KraftSum(FIRST_COUNTS_C, 16) == WHOLE
  {
    hide SumTo, KraftSum;
    SixteenCounts(FIRST_COUNTS_C);
  }

  lemma SecondSizeC()
    ensures |SECOND_SYMBOLS_C| == 164
  {
  }

  lemma SecondCountsC()
    ensures SumTo(SECOND_COUNTS_C, 16) == 162
    ensures KraftSum(SECOND_COUNTS_C, 16) <= WHOLE
  {
    hide SumTo, KraftSum;
    SixteenCounts(SECOND_COUNTS_C);
  }

  /** The symbols an encoder needs behind the first entry: the two run markers, and sizes 1 to 10 after any run. */
  predicate Wanted(symbol: nat) {
    symbol == END_OF_BLOCK || symbol == SIXTEEN_ZEROS || (symbol < 256 && 1 <= symbol % 16 <= 10)
  }

  lemma ListedA(symbol: nat)
    requires Wanted(symbol)
    ensures symbol in SECOND_SYMBOLS_A
  {
    var run, size := symbol / 16, symbol % 16;
    assert symbol == 16 * run + size;
  }

  lemma ListedB(symbol: nat)
    requires Wanted(symbol)
    ensures symbol in SECOND_SYMBOLS_B
  {
    var run, size := symbol / 16, symbol % 16;
    assert symbol == 16 * run + size;
  }

  lemma ListedC(symbol: nat)
    requires Wanted(symbol)
    ensures symbol in SECOND_SYMBOLS_C
  {
    var run, size := symbol / 16, symbol % 16;
    assert symbol == 16 * run + size;
  }

  /** Both codes of a table fit the code space: the first fills it, and no symbol is left without a code. */
  lemma TableCounts(table: nat)
    ensures var c := FirstTree(table)[..16];
            |FirstTree(table)| == 29 && SumTo(c, 16) == 13 && KraftSum(c, 16) == WHOLE
    ensures var c := SecondTree(table)[..16];
            |SecondTree(table)| == 180 && SumTo(c, 16) == 162 && KraftSum(c, 16) <= WHOLE
  {
    hide SumTo, KraftSum;
    FirstCountsA();
    FirstCountsB();
    FirstCountsC();
    SecondSizeA();
    SecondCountsA();
    SecondSizeB();
    SecondCountsB();
    SecondSizeC();
    SecondCountsC();
    assert FirstTree(table)[..16] == FirstCounts(table);
    assert SecondTree(table)[..16] == SecondCounts(table);
  }

  /** The built-in specifications are valid, and their trees fit the two node arrays. */
  lemma TablesValid(table: nat)
    ensures ValidTables(TablesFor(table))
    ensures Fits(FirstTree(table), 32) && Fits(SecondTree(table), 512)
    ensures Nodes(DecodeTree(SourceLengths(FirstTree(table)))) == 25
  {
    hide SumTo, KraftSum, FirstTree, SecondTree, Space, CodeLengths, DecodeTree, Nodes, UnfilledNodes, Placed;
    TableCounts(table);
    KraftOfSource(FirstTree(table));
    KraftOfSource(SecondTree(table));
    TreeSize(SourceLengths(FirstTree(table)));
    TreeSize(SourceLengths(SecondTree(table)));
    AllPlacedIffKraft(SourceLengths(FirstTree(table)));
    AllPlacedIffKraft(SourceLengths(SecondTree(table)));
  }

  /** The filler symbols at the end have no codes; all others do. */
  lemma BeforeFillers(symbols: seq<Byte>, symbol: nat) returns (k: nat)
    requires |symbols| == 164 && symbols[162] == symbols[163] == 0xff
    requires symbol in symbols && symbol != 0xff
    ensures k < 162 && symbols[k] == symbol
  {
    k :| 0 <= k < |symbols| && symbols[k] == symbol;
  }

  lemma Fillers()
    ensures |SECOND_SYMBOLS_A| == 164 && SECOND_SYMBOLS_A[162] == SECOND_SYMBOLS_A[163] == 0xff
    ensures |SECOND_SYMBOLS_B| == 164 && SECOND_SYMBOLS_B[162] == SECOND_SYMBOLS_B[163] == 0xff
    ensures |SECOND_SYMBOLS_C| == 164 && SECOND_SYMBOLS_C[162] == SECOND_SYMBOLS_C[163] == 0xff
  {
  }

  lemma SecondSymbolListed(table: nat, symbol: nat) returns (k: nat)
    requires Wanted(symbol)
    ensures k < 162 < |SecondSymbols(table)| && SecondSymbols(table)[k] == symbol
  {
    hide SECOND_SYMBOLS_A, SECOND_SYMBOLS_B, SECOND_SYMBOLS_C;
    Fillers();
    ListedA(symbol);
    ListedB(symbol);
    ListedC(symbol);
    k := BeforeFillers(SecondSymbols(table), symbol);
  }

  lemma SecondHasCode(table: nat, symbol: nat)
    requires Wanted(symbol) && ValidSource(SecondTree(table))
    ensures HasCode(SecondTree(table), symbol)
  {
    hide SecondSymbols, SumTo, KraftSum, Space;
    var k := SecondSymbolListed(table, symbol);
    TableCounts(table);
    assert SecondTree(table) == SecondCounts(table) + SecondSymbols(table);
    assert Names(SecondTree(table), k, symbol);
  }

  lemma FirstHasCode(table: nat, symbol: nat)
    requires symbol < 12 && ValidSource(FirstTree(table))
    ensures HasCode(FirstTree(table), symbol)
  {
    hide SumTo, KraftSum, Space;
    var k := FirstSymbolListed(table, symbol);
    TableCounts(table);
    assert Names(FirstTree(table), k, symbol);
  }

  lemma FirstSymbolListed(table: nat, symbol: nat) returns (k: nat)
    requires symbol < 12
    ensures |FirstCounts(table)| == 16 && |FirstSymbols(table)| == 13
    ensures k < 13 && FirstSymbols(table)[k] == symbol
  {
    hide FIRST_SYMBOLS_A, FIRST_SYMBOLS_B, FIRST_SYMBOLS_C;
    FirstListed(symbol);
    k :| 0 <= k < |FirstSymbols(table)| && FirstSymbols(table)[k] == symbol;
  }

  lemma FirstListed(symbol: nat)
    requires symbol < 12
    ensures |FIRST_SYMBOLS_A| == |FIRST_SYMBOLS_B| == |FIRST_SYMBOLS_C| == 13
    ensures symbol in FIRST_SYMBOLS_A && symbol in FIRST_SYMBOLS_B && symbol in FIRST_SYMBOLS_C
  {
  }

  // ----- every image of 10-bit samples can be encoded, and is recovered

  lemma SizeBounds(d: int, size: nat)
    requires d < Pow2(size) && -d < Pow2(size)
    ensures Size(d) <= size
    ensures d != 0 ==> 1 <= Size(d)
  {
    BitLengthAtMost(if d < 0 then -d else d, size);
  }

  lemma TokensFit(table: nat, run: nat, d: int)
    requires ValidTables(TablesFor(table)) && run < 16
    ensures -2048 < d < 2048 ==> TokenFits(FirstTree(table), 0, d)
    ensures -1024 < d < 1024 && d != 0 ==> TokenFits(SecondTree(table), run, d)
  {
    hide ValidSource, HasCode, Size, FirstTree, SecondTree, Pow2;
    PowersOfSizes();
    if -2048 < d < 2048 {
      SizeBounds(d, 11);
      FirstHasCode(table, Size(d));
    }
    if -1024 < d < 1024 && d != 0 {
      SizeBounds(d, 10);
      SecondHasCode(table, 16 * run + Size(d));
    }
  }

  lemma PowersOfSizes()
    ensures Pow2(10) == 1024 && Pow2(11) == 2048
  {
    assert Pow2(5) == 32;
    assert Pow2(10) == 32 * Pow2(5);
  }

  lemma {:induction false} SmallBlockEncodable(table: nat, block: seq<int>, i: nat)
    requires ValidTables(TablesFor(table)) && |block| == BLOCK && i <= BLOCK
    requires -2048 < block[0] < 2048
    requires forall j :: 1 <= j < BLOCK ==> -1024 < block[j] < 1024
    ensures Encodable(TablesFor(table), block, i)
    decreases BLOCK - i
  {
    hide ValidSource, HasCode, TokenFits, FirstTree, SecondTree, Encodable, ZeroRun;
    EncodableStep(TablesFor(table), block, i);
    if i == 0 {
      TokensFit(table, 0, block[0]);
      SmallBlockEncodable(table, block, 1);
    } else if i < BLOCK {
      var run := ZeroRun(block, i);
      if i + run == BLOCK {
        SecondHasCode(table, END_OF_BLOCK);
      } else if run >= 16 {
        SecondHasCode(table, SIXTEEN_ZEROS);
        SmallBlockEncodable(table, block, i + 16);
      } else {
        TokensFit(table, run, block[i + run]);
        SmallBlockEncodable(table, block, i + run + 1);
      }
    }
  }

  lemma EncodableStep(tb: Tables, block: seq<int>, i: nat)
    requires ValidTables(tb) && |block| == BLOCK && i <= BLOCK
    ensures i == BLOCK ==> Encodable(tb, block, i)
    ensures i == 0 ==> (Encodable(tb, block, i) <==> TokenFits(tb.first, 0, block[0]) && Encodable(tb, block, 1))
    ensures 0 < i < BLOCK ==>
              var run := ZeroRun(block, i);
              && (i + run == BLOCK ==> (Encodable(tb, block, i) <==> HasCode(tb.second, END_OF_BLOCK)))
              && (i + run < BLOCK && run >= 16 ==>
                    (Encodable(tb, block, i) <==> HasCode(tb.second, SIXTEEN_ZEROS) && Encodable(tb, block, i + 16)))
              && (i + run < BLOCK && run < 16 ==>
                    (Encodable(tb, block, i)
                     <==> TokenFits(tb.second, run, block[i + run]) && Encodable(tb, block, i + run + 1)))
  {
    hide ValidSource, HasCode, TokenFits, ZeroRun;
  }

  ghost predicate TenBit(samples: seq<int>) {
    forall p :: 0 <= p < |samples| ==> 0 <= samples[p] < 1024
  }

  lemma TenBitImagesEncodable(table: nat, samples: seq<int>, width: nat)
    requires ValidTables(TablesFor(table)) && width > 0 && TenBit(samples)
    ensures AllEncodable(TablesFor(table), ImageEntries(samples, width))
  {
    hide ValidSource, Encodable, ImageEntries, FirstTree, SecondTree;
    var entries := ImageEntries(samples, width);
    forall b: nat | BLOCK * b + BLOCK <= |entries|
      ensures Encodable(TablesFor(table), BlockOf(entries, b), 0)
    {
      var block := BlockOf(entries, b);
      forall j | 0 <= j < BLOCK
        ensures -2048 < block[j] < 2048 && (j > 0 ==> -1024 < block[j] < 1024)
      {
        assert (BLOCK * b + j) % BLOCK == j;
        EntriesAreSmall(samples, width, BLOCK * b + j);
      }
      SmallBlockEncodable(table, block, 0);
    }
  }

  /** From `offset` on, the file holds the stuffed bytes of the encoded image, and then anything. */
  ghost predicate HoldsImage(data: seq<Byte>, offset: nat, table: nat, samples: seq<int>, width: nat)
    requires width > 0 && |samples| % BLOCK == 0
  {
    && offset <= |data|
    && ValidTables(TablesFor(table))
    && AllEncodable(TablesFor(table), ImageEntries(samples, width))
    && exists bytes ::
         Stuff(bytes) <= data[offset..] && EncodeImage(TablesFor(table), samples, width) <= BytesToBits(bytes)
  }

  lemma HeldImageIsDecoded(data: seq<Byte>, offset: nat, table: nat, samples: seq<int>, width: nat)
    requires width > 0 && |samples| % BLOCK == 0
    requires forall p :: 0 <= p < |samples| ==> 0 <= samples[p] < 0x1_0000
    requires HoldsImage(data, offset, table, samples, width)
    ensures var entries := Entries(TablesFor(table), DestuffedBits(data, offset), |samples| / BLOCK);
            DecodedImage(entries, width) == samples
  {
    hide ValidTables, AllEncodable, EncodeImage, BytesToBits, Stuff, DestuffedBits, DecodedImage, Entries;
    hide FirstTree, SecondTree, ImageEntries;
    var bytes :| Stuff(bytes) <= data[offset..] && EncodeImage(TablesFor(table), samples, width) <= BytesToBits(bytes);
    var suffix := data[offset + |Stuff(bytes)|..];
    assert data == data[..offset] + Stuff(bytes) + suffix;
    ImageRoundTrip(TablesFor(table), samples, width, data[..offset], bytes, suffix);
  }

  /** Every image of 10-bit samples, of any row width, has a file with any of the tables, and is read back from it. */
  lemma TenBitImagesRoundTrip(table: nat, samples: seq<int>, width: nat, prefix: seq<Byte>) returns (file: seq<Byte>)
    requires width > 0 && |samples| % BLOCK == 0 && TenBit(samples)
    ensures prefix <= file && HoldsImage(file, |prefix|, table, samples, width)
    ensures var entries := Entries(TablesFor(table), DestuffedBits(file, |prefix|), |samples| / BLOCK);
            DecodedImage(entries, width) == samples
  {
    hide ValidTables, AllEncodable, EncodeImage, BytesToBits, Stuff, DestuffedBits, DecodedImage, Entries;
    hide FirstTree, SecondTree, ImageEntries;
    TablesValid(table);
    TenBitImagesEncodable(table, samples, width);
    var bytes := PackBits(EncodeImage(TablesFor(table), samples, width));
    file := prefix + Stuff(bytes);
    assert file[|prefix|..] == Stuff(bytes);
    HeldImageIsDecoded(file, |prefix|, table, samples, width);
  }

  /** Bits can be packed into bytes, filled up at the end. */
  lemma {:induction false} PackBits(bits: seq<bool>) returns (bytes: seq<Byte>)
    ensures bits <= BytesToBits(bytes)
    decreases |bits|
  {
    if bits == [] {
      bytes := [];
    } else {
      var head := if |bits| >= 8 then bits[..8] else bits + seq(8 - |bits|, _ => false);
      var rest := PackBits(if |bits| >= 8 then bits[8..] else []);
      ValueBound(head);
      Pow2Values();
      ToBitsOfValue(head);
      bytes := [Value(head)] + rest;
      assert bytes[1..] == rest;
      assert BytesToBits(bytes) == head + BytesToBits(rest);
    }
  }

  /** The decompressor, run on a file that holds an image of its frame's size where the code starts, writes out that
      image, with the low-order bits of the file merged in if it has them. */
  method DecompressImage(data: seq<Byte>, lowbits: bool, table: nat, width: nat, height: nat, ghost samples: seq<nat>)
    returns (out: seq<nat>)
    requires width > 0 && |samples| % BLOCK == 0 && |samples| / BLOCK == BlockCount(width, height)
    requires forall p :: 0 <= p < |samples| ==> samples[p] < 0x1_0000
    requires HoldsImage(data, CodeStart(lowbits, width, height), table, samples, width)
    ensures out == Written(samples, data, lowbits)
  {
    hide HoldsImage, DestuffedBits, DecodedImage, Entries, BlockCount, Fits, Written, CodeStart;
    hide FirstTree, SecondTree;
    TablesValid(table);
    HeldImageIsDecoded(data, CodeStart(lowbits, width, height), table, samples, width);
    out := Decompress(data, lowbits, FirstTree(table), SecondTree(table), width, height);
  }

  // ----- a documented code

  /** The specification that the program documents, and its codes as listed there, as numbers of so many bits: 00, 010,
      011, 100, 101, 1100, 1101, 11100, 11101, 11110, 111110, 1111110, 1111111. */
  lemma DocumentedCode(k: nat)
    requires k < 13
    ensures FirstTree(0) == [0, 1, 4, 2, 3, 1, 2, 0, 0, 0, 0, 0, 0, 0, 0, 0,
                             0x04, 0x03, 0x05, 0x06, 0x02, 0x07, 0x01, 0x08, 0x09, 0x00, 0x0a, 0x0b, 0xff]
    ensures var lens := SourceLengths(FirstTree(0));
            && lens == [2, 3, 3, 3, 3, 4, 4, 5, 5, 5, 6, 7, 7]
            && |CodeBits(lens, k)| == lens[k]
            && Value(CodeBits(lens, k)) == [0, 2, 3, 4, 5, 12, 13, 28, 29, 30, 62, 126, 127][k]
  {
    hide Lengths, Code, ToBits, Value, CodeLengths, Pow2, FirstTree;
    DocumentedBytes();
    DocumentedSource();
    var lens := [2, 3, 3, 3, 3, 4, 4, 5, 5, 5, 6, 7, 7];
    var codes := [0, 2, 3, 4, 5, 12, 13, 28, 29, 30, 62, 126, 127];
    DocumentedNumbers(lens, codes, k);
    DocumentedFit(lens, codes, k);
    ValueOfToBits(Code(lens, k), lens[k]);
  }

  lemma DocumentedSource()
    ensures SourceLengths(FirstTree(0)) == [2, 3, 3, 3, 3, 4, 4, 5, 5, 5, 6, 7, 7]
  {
    hide Lengths, CodeLengths, SumTo;
    var c, lens := FirstTree(0)[..16], [2, 3, 3, 3, 3, 4, 4, 5, 5, 5, 6, 7, 7];
    DocumentedCounts();
    hide FirstTree, FIRST_COUNTS_A;
    assert c == FIRST_COUNTS_A;
    DocumentedLength(c, 0);
    forall k | 0 <= k < 13
      ensures Lengths(c, 16)[k] == lens[k]
    {
      DocumentedLength(c, k);
    }
  }

  lemma DocumentedBytes()
    ensures FirstTree(0) == [0, 1, 4, 2, 3, 1, 2, 0, 0, 0, 0, 0, 0, 0, 0, 0,
                             0x04, 0x03, 0x05, 0x06, 0x02, 0x07, 0x01, 0x08, 0x09, 0x00, 0x0a, 0x0b, 0xff]
  {
  }

  lemma DocumentedCounts()
    ensures var c := FIRST_COUNTS_A;
            && |c| == 16 && FirstTree(0)[..16] == c
            && c[0] == 0 && c[1] == 1 && c[2] == 4 && c[3] == 2 && c[4] == 3 && c[5] == 1 && c[6] == 2
            && forall j :: 7 <= j < 16 ==> c[j] == 0
  {
  }

  lemma SumStep(c: seq<Byte>, n: nat)
    requires n < |c|
    ensures SumTo(c, n + 1) == SumTo(c, n) + c[n] && SumTo(c, 0) == 0
  {
  }

  lemma {:induction false} NoMoreCodes(c: seq<Byte>, from: nat, n: nat)
    requires from <= n <= |c| && forall j :: from <= j < |c| ==> c[j] == 0
    ensures SumTo(c, n) == SumTo(c, from)
  {
    if n > from {
      NoMoreCodes(c, from, n - 1);
    }
  }

  lemma DocumentedLength(c: seq<Byte>, k: nat)
    requires |c| == 16 && c[0] == 0 && c[1] == 1 && c[2] == 4 && c[3] == 2 && c[4] == 3 && c[5] == 1 && c[6] == 2
    requires forall j :: 7 <= j < |c| ==> c[j] == 0
    ensures |Lengths(c, 16)| == 13
    ensures k < 13 ==>
              Lengths(c, 16)[k] == if k < 1 then 2 else if k < 5 then 3 else if k < 7 then 4 else if k < 10 then 5
                                   else if k < 11 then 6 else 7
  {
    hide Lengths, SumTo;
    SumStep(c, 0); SumStep(c, 1); SumStep(c, 2); SumStep(c, 3); SumStep(c, 4); SumStep(c, 5); SumStep(c, 6);
    NoMoreCodes(c, 7, 16);
    if k < 13 {
      var next := if k < 1 then 2 else if k < 5 then 3 else if k < 7 then 4 else if k < 10 then 5
                  else if k < 11 then 6 else 7;
      LengthAt(c, next, k, 16);
    }
  }

  lemma CodeStep(lens: seq<nat>, k: nat)
    requires CodeLengths(lens) && 0 < k < |lens|
    ensures Code(lens, 0) == 0
    ensures lens[k] == lens[k - 1] ==> Code(lens, k) == Code(lens, k - 1) + 1
    ensures lens[k] == lens[k - 1] + 1 ==> Code(lens, k) == 2 * (Code(lens, k - 1) + 1)
  {
    assert Pow2(0) == 1 && Pow2(1) == 2;
  }

  lemma {:induction false} DocumentedNumbers(lens: seq<nat>, codes: seq<nat>, k: nat)
    requires CodeLengths(lens) && lens == [2, 3, 3, 3, 3, 4, 4, 5, 5, 5, 6, 7, 7]
    requires codes == [0, 2, 3, 4, 5, 12, 13, 28, 29, 30, 62, 126, 127] && k < 13
    ensures Code(lens, k) == codes[k]
  {
    hide Code, CodeLengths;
    CodeStep(lens, if k > 0 then k else 1);
    if k > 0 {
      DocumentedNumbers(lens, codes, k - 1);
    }
  }

  lemma DocumentedFit(lens: seq<nat>, codes: seq<nat>, k: nat)
    requires lens == [2, 3, 3, 3, 3, 4, 4, 5, 5, 5, 6, 7, 7]
    requires codes == [0, 2, 3, 4, 5, 12, 13, 28, 29, 30, 62, 126, 127] && k < 13
    ensures codes[k] < Pow2(lens[k])
  {
    hide Pow2;
    SmallPowers();
  }

  lemma SmallPowers()
    ensures Pow2(2) == 4 && Pow2(3) == 8 && Pow2(4) == 16 && Pow2(5) == 32 && Pow2(6) == 64 && Pow2(7) == 128
  {
    assert Pow2(4) == 16;
    assert Pow2(6) == 64;
  }
}
