/** The Sony keystream: a ring of 128 words that computes an endless recurrence, xored onto the data. */
module SonyKeystream {
  import opened Bits
  import opened Bitwise

  type Word = w: int | 0 <= w < 0x1_0000_0000

  const RING := 128
  const SEED := 127

  function Xor(a: Word, b: Word): Word {
    Pow2Values();
    XorBound(a, b, 32);
    BitXor(a, b)
  }

  // ----- the seed

  /** One step of the generator, in 32-bit arithmetic. */
  function Next(key: Word): Word {
    (key * 48828125 + 1) % WORD
  }

  function Stepped(key: Word, n: nat): Word {
    if n == 0 then key else Next(Stepped(key, n - 1))
  }

  /** The first word moved up by one bit, with the top bit of the second behind it. */
  function ShiftIn(high: Word, low: Word): Word {
    ShiftInIs(high, low);
    BitOr(high * 2 % WORD, low / 0x8000_0000)
  }

  /** Word `i` of the pad before its bytes are put into network order. */
  function Seed(key: Word, i: nat): Word {
    if i < 3 then Stepped(key, i + 1)
    else if i == 3 then ShiftIn(Stepped(key, 4), Xor(Stepped(key, 1), Stepped(key, 3)))
    else ShiftIn(Xor(Seed(key, i - 4), Seed(key, i - 2)), Xor(Seed(key, i - 3), Seed(key, i - 1)))
  }

  /** Network byte order on a little-endian machine. */
  function Htonl(w: Word): Word {
    w % 0x100 * 0x100_0000 + w / 0x100 % 0x100 * 0x1_0000 + w / 0x1_0000 % 0x100 * 0x100 + w / 0x100_0000
  }

  // ----- what these words are

  /** The generator multiplies by the eleventh power of 5 and adds 1, modulo 2^32. */
  lemma NextIs(key: Word)
    ensures Next(key) == (key * (5 * 5 * 5 * 5 * 5 * 5 * 5 * 5 * 5 * 5 * 5) + 1) % 0x1_0000_0000
  {
  }

  lemma ShiftInIs(high: Word, low: Word)
    ensures BitOr(high * 2 % WORD, low / 0x8000_0000) == high % 0x8000_0000 * 2 + low / 0x8000_0000
    ensures high % 0x8000_0000 * 2 + low / 0x8000_0000 < 0x1_0000_0000
  {
    var x, b := high % 0x8000_0000, low / 0x8000_0000;
    TwiceInWord(high);
    assert b < 2;
    assert Pow2(1) == 2;
    hide BitOr, Pow2;
    OrDisjoint(x, b, 1);
  }

  lemma TwiceInWord(high: Word)
    ensures high * 2 % WORD == high % 0x8000_0000 * 2
  {
    assert high == 0x8000_0000 * (high / 0x8000_0000) + high % 0x8000_0000;
  }

  /** Shifting in gives the 32 bits that start one bit into the 64-bit number of both words. */
  lemma ShiftInIsWindow(high: Word, low: Word)
    ensures ShiftIn(high, low) == (high * 0x1_0000_0000 + low) / 0x8000_0000 % 0x1_0000_0000
  {
    hide BitOr;
    ShiftInIs(high, low);
    var q, x, b := high / 0x8000_0000, high % 0x8000_0000, low / 0x8000_0000;
    Leading(2 * high + b, low % 0x8000_0000);
    Trailing(q, x * 2 + b);
    assert high * 0x1_0000_0000 + low == 0x8000_0000 * (2 * high + b) + low % 0x8000_0000;
    assert 2 * high + b == 0x1_0000_0000 * q + (x * 2 + b);
  }

  lemma Leading(a: int, r: int)
    requires 0 <= r < 0x8000_0000
    ensures (0x8000_0000 * a + r) / 0x8000_0000 == a
  {
  }

  lemma Trailing(q: int, r: int)
    requires 0 <= r < 0x1_0000_0000
    ensures (0x1_0000_0000 * q + r) % 0x1_0000_0000 == r
  {
  }

  lemma ShiftInBits(high: Word, low: Word, j: nat)
    requires j < 32
    ensures Bit(ShiftIn(high, low), j) <==> if j == 0 then Bit(low, 31) else Bit(high, j - 1)
  {
    ShiftInIs(high, low);
    Pow2Values();
    hide BitOr, Bit, Pow2, Div;
    var x, b := high % 0x8000_0000, low / 0x8000_0000;
    BitStep(x * 2 + b, j);
    assert (x * 2 + b) / 2 == x && (x * 2 + b) % 2 == b;
    if j == 0 {
      TopBitOf(low);
    } else {
      LowBits(high, j - 1, 31);
      assert Pow2(31) == 0x8000_0000 by { NextPow2(31); }
    }
  }

  lemma NextPow2(n: nat)
    ensures Pow2(n + 1) == 2 * Pow2(n)
  {
  }

  lemma BitStep(a: nat, j: nat)
    ensures Bit(a, j) <==> if j == 0 then a % 2 == 1 else Bit(a / 2, j - 1)
  {
  }

  lemma TopBitOf(low: Word)
    ensures Bit(low, 31) <==> low / 0x8000_0000 == 1
  {
    hide Bit;
    Pow2Values();
    NextPow2(31);
    BitIsParity(low, 31);
  }

  /** Removing the bits from `n` on leaves those below. */
  lemma {:induction false} LowBits(a: nat, j: nat, n: nat)
    requires j < n
    ensures Bit(Mod(a, Pow2(n)), j) <==> Bit(a, j)
    decreases n
  {
    hide Div, Mod;
    var p := Pow2(n - 1);
    var q, r := Div(a / 2, p), Mod(a / 2, p);
    Euclid(a / 2, p);
    TwiceProduct(q, p);
    assert a == q * (2 * p) + (2 * r + a % 2);
    DivModUnique(q, 2 * p, 2 * r + a % 2);
    assert Mod(a, Pow2(n)) == 2 * r + a % 2;
    if j > 0 {
      LowBits(a / 2, j - 1, n - 1);
    }
  }

  /** Network order puts byte `j` of a word where its byte 3 - j was. */
  lemma HtonlDigits(w: Word)
    ensures Htonl(w) % 0x100 == w / 0x100_0000
    ensures Htonl(w) / 0x100 % 0x100 == w / 0x1_0000 % 0x100
    ensures Htonl(w) / 0x1_0000 % 0x100 == w / 0x100 % 0x100
    ensures Htonl(w) / 0x100_0000 == w % 0x100
  {
    DigitsOf(w % 0x100, w / 0x100 % 0x100, w / 0x1_0000 % 0x100, w / 0x100_0000);
  }

  lemma DigitsOf(b0: Byte, b1: Byte, b2: Byte, b3: Byte)
    ensures var h := b0 * 0x100_0000 + b1 * 0x1_0000 + b2 * 0x100 + b3;
            && h % 0x100 == b3 && h / 0x100 % 0x100 == b2
            && h / 0x1_0000 % 0x100 == b1 && h / 0x100_0000 == b0
  {
    var h := b0 * 0x100_0000 + b1 * 0x1_0000 + b2 * 0x100 + b3;
    assert h / 0x100 == b0 * 0x1_0000 + b1 * 0x100 + b2;
    assert h / 0x1_0000 == b0 * 0x100 + b1;
  }

  /** The seed as one string of bits, each word from its top bit down. */
  function SeedBit(key: Word, t: nat): bool {
    Bit(Seed(key, t / 32), 31 - t % 32)
  }

  /** The first three words are the first three the generator makes, and 31 bits are the low ones of the fourth. */
  lemma SeedStart(key: Word, m: nat)
    ensures Seed(key, 0) == Next(key) && Seed(key, 1) == Next(Next(key)) && Seed(key, 2) == Next(Next(Next(key)))
    ensures m < 31 ==> (SeedBit(key, 96 + m) <==> Bit(Next(Next(Next(Next(key)))), 30 - m))
  {
    hide Next, Xor, Bit, ShiftIn;
    FourSteps(key);
    if m < 31 {
      ThirdWord(key);
      var k1, k3, k4 := Stepped(key, 1), Stepped(key, 3), Stepped(key, 4);
      ShiftInBits(k4, Xor(k1, k3), 31 - m);
      assert (96 + m) / 32 == 3 && (96 + m) % 32 == m;
    }
  }

  lemma FourSteps(key: Word)
    ensures Stepped(key, 1) == Next(key) && Stepped(key, 2) == Next(Next(key))
    ensures Stepped(key, 3) == Next(Next(Next(key))) && Stepped(key, 4) == Next(Next(Next(Next(key))))
    ensures Seed(key, 0) == Next(key) && Seed(key, 1) == Next(Next(key)) && Seed(key, 2) == Next(Next(Next(key)))
  {
    hide Next, Xor, ShiftIn;
    assert Stepped(key, 0) == key;
  }

  lemma ThirdWord(key: Word)
    ensures Seed(key, 3) == ShiftIn(Stepped(key, 4), Xor(Stepped(key, 1), Stepped(key, 3)))
  {
    hide Next, Xor, ShiftIn, Stepped;
  }

  /** From bit 127 on, each bit of the seed is the exclusive or of those 127 and 63 bits before it: bit by bit the
      recurrence that the keystream follows word by word. */
  lemma SeedRecurrence(key: Word, t: nat)
    requires t >= 127
    ensures SeedBit(key, t) <==> SeedBit(key, t - 127) != SeedBit(key, t - 63)
  {
    hide Next, Xor, Bit, ShiftIn, Seed, Stepped;
    var i, m := t / 32, t % 32;
    assert t == 32 * i + m;
    if i == 3 {
      FourSteps(key);
      ThirdWord(key);
      var a, b := Seed(key, 0), Seed(key, 2);
      ShiftInBits(Stepped(key, 4), Xor(a, b), 0);
      XorWordBits(a, b, 31);
    } else {
      NextSeed(key, i);
      var h := Xor(Seed(key, i - 4), Seed(key, i - 2));
      var l := Xor(Seed(key, i - 3), Seed(key, i - 1));
      ShiftInBits(h, l, 31 - m);
      if m == 31 {
        XorWordBits(Seed(key, i - 3), Seed(key, i - 1), 31);
        BitPlace(t - 127, i - 3, 0);
        BitPlace(t - 63, i - 1, 0);
      } else {
        XorWordBits(Seed(key, i - 4), Seed(key, i - 2), 30 - m);
        BitPlace(t - 127, i - 4, m + 1);
        BitPlace(t - 63, i - 2, m + 1);
      }
    }
  }

  lemma BitPlace(t: nat, i: nat, m: nat)
    requires t == 32 * i + m && m < 32
    ensures t / 32 == i && t % 32 == m
  {
  }

  /** A bit of an exclusive or is set where exactly one of the words has it. */
  lemma XorWordBits(a: Word, b: Word, j: nat)
    ensures Bit(Xor(a, b), j) <==> Bit(a, j) != Bit(b, j)
  {
    XorBits(a, b, j);
  }

  // ----- the keystream as an endless recurrence

  function Key(key: Word, i: nat): Word {
    if i < SEED then Htonl(Seed(key, i)) else Xor(Key(key, i - 127), Key(key, i - 63))
  }

  /** The data with word `t` xored with keystream word 127 + t. */
  function Encrypted(data: seq<Word>, key: Word): (r: seq<Word>)
    ensures |r| == |data|
  {
    seq(|data|, t requires 0 <= t < |data| => Xor(data[t], Key(key, SEED + t)))
  }

  /** Encrypting twice with one key is the identity. */
  lemma EncryptedTwice(data: seq<Word>, key: Word)
    ensures Encrypted(Encrypted(data, key), key) == data
  {
    hide Key, BitXor;
    forall t | 0 <= t < |data|
      ensures Encrypted(Encrypted(data, key), key)[t] == data[t]
    {
      XorTwice(data[t], Key(key, SEED + t));
    }
  }

  /** Bit by bit, the data is inverted where the keystream has a 1, word `t` by keystream word 127 + t. */
  lemma EncryptedBits(data: seq<Word>, key: Word, t: nat, j: nat)
    requires t < |data|
    ensures Bit(Encrypted(data, key)[t], j) <==> Bit(data[t], j) != Bit(Key(key, 127 + t), j)
  {
    hide Key, Xor, Bit;
    XorWordBits(data[t], Key(key, SEED + t), j);
  }

  // ----- the ring

  /** Slot `j % 128` of the ring holds keystream word `j` for the last 127 words before `i`. */
  ghost predicate RingHolds(pad: seq<Word>, key: Word, i: nat) {
    |pad| == RING && i >= SEED && forall j :: i - SEED <= j < i ==> pad[j % RING] == Key(key, j)
  }

  lemma RingSlots(i: nat)
    requires i >= SEED
    ensures (i + 1) % RING == (i - 127) % RING && (i + 65) % RING == (i - 63) % RING
    ensures forall j :: i - SEED <= j < i ==> j % RING != i % RING
  {
  }

  /** The keystream: 127 words in network order, then each the exclusive or of those 127 and 63 words before it. */
  lemma KeyRecurrence(key: Word, i: nat)
    ensures i < 127 ==> Key(key, i) == Htonl(Seed(key, i))
    ensures i >= 127 ==> Key(key, i) == Xor(Key(key, i - 127), Key(key, i - 63))
  {
    hide Htonl, Xor, Seed;
  }

  /** For key 0, the first word is 1 in network order. */
  lemma KeyOfZero()
    ensures Key(0, 0) == 0x0100_0000
  {
    hide Seed;
    FourSteps(0);
  }

  /** Slots 127 apart are neighbours in the ring, and the slot after the last word is the one to overwrite. */
  lemma RingStep(pad: seq<Word>, key: Word, i: nat)
    requires RingHolds(pad, key, i)
    ensures Xor(pad[(i + 1) % RING], pad[(i + 65) % RING]) == Key(key, i)
    ensures RingHolds(pad[i % RING := Key(key, i)], key, i + 1)
  {
    hide Key, Xor;
    KeyRecurrence(key, i);
    RingSlots(i);
  }

  /** Decrypts the first `len` words of `data` in place. */
  method SonyDecrypt(data: array<Word>, len: nat, key: Word)
    requires len <= data.Length
    modifies data
    ensures data[..len] == Encrypted(old(data[..len]), key)
    ensures data[len..] == old(data[len..])
  {
    hide Key, RingHolds, Xor;
    var pad := new Word[RING](_ => 0);
    SeedPad(pad, key);
    var i := SEED;
    while i < len + SEED
      invariant SEED <= i <= len + SEED
      invariant RingHolds(pad[..], key, i)
      invariant forall t :: 0 <= t < i - SEED ==> data[t] == Xor(old(data[t]), Key(key, SEED + t))
      invariant forall t :: i - SEED <= t < data.Length ==> data[t] == old(data[t])
    {
      TurnRing(pad, key, i);
      data[i - SEED] := Xor(data[i - SEED], pad[i % RING]);
      i := i + 1;
    }
  }

  /** Computes the next keystream word into the ring. */
  method TurnRing(pad: array<Word>, key: Word, i: nat)
    requires pad.Length == RING && i >= SEED && RingHolds(pad[..], key, i)
    modifies pad
    ensures RingHolds(pad[..], key, i + 1) && pad[i % RING] == Key(key, i)
  {
    hide Key, RingHolds, Xor;
    RingStep(pad[..], key, i);
    ghost var before := pad[..];
    pad[i % RING] := Xor(pad[(i + 1) % RING], pad[(i + 65) % RING]);
    assert pad[..] == before[i % RING := Key(key, i)];
  }

  /** Fills the first 127 slots: four steps of the generator, the shift recurrence, network byte order. */
  method SeedPad(pad: array<Word>, key: Word)
    requires pad.Length == RING
    modifies pad
    ensures RingHolds(pad[..], key, SEED)
  {
    hide Seed, Htonl;
    StartPad(pad, key);
    ExtendPad(pad, key);
    for i := 0 to SEED
      invariant forall j :: 0 <= j < i ==> pad[j] == Htonl(Seed(key, j))
      invariant forall j :: i <= j < SEED ==> pad[j] == Seed(key, j)
    {
      pad[i] := Htonl(pad[i]);
    }
    SeedIsKey(pad[..], key);
  }

  lemma SeedIsKey(pad: seq<Word>, key: Word)
    requires |pad| == RING && forall j :: 0 <= j < SEED ==> pad[j] == Htonl(Seed(key, j))
    ensures RingHolds(pad, key, SEED)
  {
    hide Seed, Htonl, Xor;
  }

  method ExtendPad(pad: array<Word>, key: Word)
    requires pad.Length == RING && forall j :: 0 <= j < 4 ==> pad[j] == Seed(key, j)
    modifies pad
    ensures forall j :: 0 <= j < SEED ==> pad[j] == Seed(key, j)
  {
    hide Seed, ShiftIn, Xor;
    for i := 4 to SEED
      invariant forall j :: 0 <= j < i ==> pad[j] == Seed(key, j)
    {
      NextSeed(key, i);
      pad[i] := ShiftIn(Xor(pad[i - 4], pad[i - 2]), Xor(pad[i - 3], pad[i - 1]));
    }
  }

  lemma NextSeed(key: Word, i: nat)
    requires i >= 4
    ensures Seed(key, i) == ShiftIn(Xor(Seed(key, i - 4), Seed(key, i - 2)), Xor(Seed(key, i - 3), Seed(key, i - 1)))
  {
    hide ShiftIn, Xor, Next;
  }

  method StartPad(pad: array<Word>, key: Word)
    requires pad.Length == RING
    modifies pad
    ensures forall j :: 0 <= j < 4 ==> pad[j] == Seed(key, j)
  {
    hide Next, ShiftIn, Xor;
    var k := key;
    for i := 0 to 4
      invariant k == Stepped(key, i)
      invariant forall j :: 0 <= j < i ==> pad[j] == Stepped(key, j + 1)
    {
      k := Next(k);
      pad[i] := k;
    }
    pad[3] := ShiftIn(pad[3], Xor(pad[0], pad[2]));
  }

  /** Running the decryption twice over the same words restores them. */
  method DecryptTwice(data: array<Word>, len: nat, key: Word)
    requires len <= data.Length
    modifies data
    ensures data[..] == old(data[..])
  {
    SonyDecrypt(data, len, key);
    SonyDecrypt(data, len, key);
    EncryptedTwice(old(data[..len]), key);
    assert data[..] == data[..len] + data[len..];
    assert old(data[..]) == old(data[..len]) + old(data[len..]);
  }
}
