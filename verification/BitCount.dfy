/** bimCountSet (src/bitmap.c): counting the one bits of a word in parallel, against the number
    of positions that are set. */
module BitCount {
  import opened BitmapSpec
  import opened Words

  // ---- the stages of the count ----

  function Pairs(v: bv64): bv64 { v - ((v >> 1) & 0x5555_5555_5555_5555) }
  function Nibbles(c: bv64): bv64 { ((c >> 2) & 0x3333_3333_3333_3333) + (c & 0x3333_3333_3333_3333) }
  function Bytes(c: bv64): bv64 { ((c >> 4) + c) & 0x0F0F_0F0F_0F0F_0F0F }
  function Halves(c: bv64): bv64 { ((c >> 8) + c) & 0x00FF_00FF_00FF_00FF }
  function Quarters(c: bv64): bv64 { ((c >> 16) + c) & 0x0000_FFFF_0000_FFFF }
  function Total(c: bv64): bv64 { ((c >> 32) + c) & 0x0000_0000_FFFF_FFFF }

  function CountSet(v: bv64): bv64 {
    Total(Quarters(Halves(Bytes(Nibbles(Pairs(v))))))
  }

  // ---- bounds that rule out carries ----

  predicate SmallNibbles(c: bv64) { c & 0x8888_8888_8888_8888 == 0 }
  predicate SmallBytes(c: bv64) { c & 0xF0F0_F0F0_F0F0_F0F0 == 0 }
  predicate SmallHalves(c: bv64) { c & 0xFFE0_FFE0_FFE0_FFE0 == 0 }
  predicate SmallWords(c: bv64) { c & 0xFFFF_FFC0_FFFF_FFC0 == 0 }

  // ---- the first three stages work byte by byte ----

  /** The byte of v that starts at bit k. */
  function Byte(v: bv64, k: bv64): bv64
    requires k <= 56
  {
    (v >> k) & 0xFF
  }

  lemma PairsAsSum(v: bv64)
    ensures Pairs(v) == (v & 0x5555_5555_5555_5555) + ((v >> 1) & 0x5555_5555_5555_5555)
  {
  }

  /** No byte borrows from the next. */
  lemma PairsLow(v: bv64)
    ensures Byte(Pairs(v), 0) == Pairs(Byte(v, 0))
    ensures Byte(Pairs(v), 8) == Pairs(Byte(v, 8))
    ensures Byte(Pairs(v), 16) == Pairs(Byte(v, 16))
    ensures Byte(Pairs(v), 24) == Pairs(Byte(v, 24))
  {
    PairsAsSum(v);
    PairsAsSum(Byte(v, 0));
    PairsAsSum(Byte(v, 8));
    PairsAsSum(Byte(v, 16));
    PairsAsSum(Byte(v, 24));
    hide Pairs;
  }

  lemma PairsHigh(v: bv64)
    ensures Byte(Pairs(v), 32) == Pairs(Byte(v, 32))
    ensures Byte(Pairs(v), 40) == Pairs(Byte(v, 40))
    ensures Byte(Pairs(v), 48) == Pairs(Byte(v, 48))
    ensures Byte(Pairs(v), 56) == Pairs(Byte(v, 56))
  {
    PairsAsSum(v);
    PairsAsSum(Byte(v, 32));
    PairsAsSum(Byte(v, 40));
    PairsAsSum(Byte(v, 48));
    PairsAsSum(Byte(v, 56));
    hide Pairs;
  }

  lemma NibblesLow(v: bv64)
    ensures Byte(Nibbles(v), 0) == Nibbles(Byte(v, 0))
    ensures Byte(Nibbles(v), 8) == Nibbles(Byte(v, 8))
    ensures Byte(Nibbles(v), 16) == Nibbles(Byte(v, 16))
    ensures Byte(Nibbles(v), 24) == Nibbles(Byte(v, 24))
  {
  }

  lemma NibblesHigh(v: bv64)
    ensures Byte(Nibbles(v), 32) == Nibbles(Byte(v, 32))
    ensures Byte(Nibbles(v), 40) == Nibbles(Byte(v, 40))
    ensures Byte(Nibbles(v), 48) == Nibbles(Byte(v, 48))
    ensures Byte(Nibbles(v), 56) == Nibbles(Byte(v, 56))
  {
  }

  /** Every nibble is at most 4, so no nibble sum carries. */
  lemma BytesLow(v: bv64)
    requires SmallNibbles(v)
    ensures Byte(Bytes(v), 0) == Byte(Bytes(Byte(v, 0)), 0)
    ensures Byte(Bytes(v), 8) == Byte(Bytes(Byte(v, 8)), 0)
    ensures Byte(Bytes(v), 16) == Byte(Bytes(Byte(v, 16)), 0)
    ensures Byte(Bytes(v), 24) == Byte(Bytes(Byte(v, 24)), 0)
  {
  }

  lemma BytesHigh(v: bv64)
    requires SmallNibbles(v)
    ensures Byte(Bytes(v), 32) == Byte(Bytes(Byte(v, 32)), 0)
    ensures Byte(Bytes(v), 40) == Byte(Bytes(Byte(v, 40)), 0)
    ensures Byte(Bytes(v), 48) == Byte(Bytes(Byte(v, 48)), 0)
    ensures Byte(Bytes(v), 56) == Byte(Bytes(Byte(v, 56)), 0)
  {
  }

  lemma NibblesSmall(v: bv64)
    ensures SmallNibbles(Nibbles(Pairs(v)))
  {
    PairsAsSum(v);
    hide Pairs;
  }

  /** Bit k as a number. */
  function BitOf(v: bv64, k: bv64): bv64
    requires k < 64
  {
    (v >> k) & 1
  }

  function Add(a: bv64, b: bv64): bv64 { a + b }

  function Sum8(a: bv64, b: bv64, c: bv64, d: bv64, e: bv64, f: bv64, g: bv64, h: bv64): bv64 {
    Add(Add(Add(a, b), Add(c, d)), Add(Add(e, f), Add(g, h)))
  }

  /** The eight bits from bit k added up. */
  function ByteSum(v: bv64, k: bv64): bv64
    requires k <= 56
  {
    Sum8(BitOf(v, k), BitOf(v, k + 1), BitOf(v, k + 2), BitOf(v, k + 3),
         BitOf(v, k + 4), BitOf(v, k + 5), BitOf(v, k + 6), BitOf(v, k + 7))
  }

  lemma ByteCount(b: bv64)
    requires b <= 0xFF
    ensures Byte(Bytes(Nibbles(Pairs(b))), 0) == ByteSum(b, 0)
  {
  }

  lemma LowByteBit(w: bv64, j: bv64)
    requires j < 8
    ensures BitOf(w & 0xFF, j) == BitOf(w, j)
  {
  }

  lemma ShiftTwice(v: bv64, k: bv64, j: bv64)
    requires k <= 56 && j < 8
    ensures BitOf(v >> k, j) == BitOf(v, k + j)
  {
  }

  lemma ByteBit(v: bv64, k: bv64, j: bv64)
    requires k <= 56 && j < 8
    ensures BitOf(Byte(v, k), j) == BitOf(v, k + j)
  {
    hide BitOf;
    LowByteBit(v >> k, j);
    ShiftTwice(v, k, j);
  }

  lemma ByteSums(v: bv64, k: bv64)
    requires k <= 56
    ensures ByteSum(Byte(v, k), 0) == ByteSum(v, k)
  {
    hide BitOf, Byte, Sum8;
    ByteBit(v, k, 0); ByteBit(v, k, 1); ByteBit(v, k, 2); ByteBit(v, k, 3);
    ByteBit(v, k, 4); ByteBit(v, k, 5); ByteBit(v, k, 6); ByteBit(v, k, 7);
  }

  lemma ByteIsSmall(v: bv64, k: bv64)
    requires k <= 56
    ensures Byte(v, k) <= 0xFF
  {
  }

  /** Three stages of the word are three stages of each byte. */
  lemma StagesAreLocal(v: bv64)
    ensures Byte(Bytes(Nibbles(Pairs(v))), 0) == Byte(Bytes(Nibbles(Pairs(Byte(v, 0)))), 0)
    ensures Byte(Bytes(Nibbles(Pairs(v))), 8) == Byte(Bytes(Nibbles(Pairs(Byte(v, 8)))), 0)
    ensures Byte(Bytes(Nibbles(Pairs(v))), 16) == Byte(Bytes(Nibbles(Pairs(Byte(v, 16)))), 0)
    ensures Byte(Bytes(Nibbles(Pairs(v))), 24) == Byte(Bytes(Nibbles(Pairs(Byte(v, 24)))), 0)
    ensures Byte(Bytes(Nibbles(Pairs(v))), 32) == Byte(Bytes(Nibbles(Pairs(Byte(v, 32)))), 0)
    ensures Byte(Bytes(Nibbles(Pairs(v))), 40) == Byte(Bytes(Nibbles(Pairs(Byte(v, 40)))), 0)
    ensures Byte(Bytes(Nibbles(Pairs(v))), 48) == Byte(Bytes(Nibbles(Pairs(Byte(v, 48)))), 0)
    ensures Byte(Bytes(Nibbles(Pairs(v))), 56) == Byte(Bytes(Nibbles(Pairs(Byte(v, 56)))), 0)
  {
    PairsLow(v); PairsHigh(v);
    NibblesLow(Pairs(v)); NibblesHigh(Pairs(v));
    NibblesSmall(v);
    BytesLow(Nibbles(Pairs(v))); BytesHigh(Nibbles(Pairs(v)));
    hide *;
  }

  /** Three stages leave in a byte its own number of ones. */
  lemma ByteStages(v: bv64, k: bv64)
    requires k <= 56
    ensures Byte(Bytes(Nibbles(Pairs(Byte(v, k)))), 0) == ByteSum(v, k)
  {
    ByteIsSmall(v, k);
    ByteCount(Byte(v, k));
    ByteSums(v, k);
    hide *;
  }

  // ---- the last three stages add up eight small bytes ----

  lemma BytesAreSmall(c: bv64)
    ensures SmallBytes(Bytes(c))
  {
  }

  /** The 16 bits of d from bit k. */
  function Half(d: bv64, k: bv64): bv64
    requires k <= 48
  {
    (d >> k) & 0xFFFF
  }

  function LowWord(e: bv64): bv64 { e & 0xFFFF_FFFF }
  function HighWord(e: bv64): bv64 { e >> 32 }

  lemma AddPairs(c: bv64)
    requires SmallBytes(c)
    ensures SmallHalves(Halves(c))
    ensures Half(Halves(c), 0) == Add(Byte(c, 0), Byte(c, 8))
    ensures Half(Halves(c), 16) == Add(Byte(c, 16), Byte(c, 24))
    ensures Half(Halves(c), 32) == Add(Byte(c, 32), Byte(c, 40))
    ensures Half(Halves(c), 48) == Add(Byte(c, 48), Byte(c, 56))
  {
  }

  lemma AddQuads(d: bv64)
    requires SmallHalves(d)
    ensures SmallWords(Quarters(d))
    ensures LowWord(Quarters(d)) == Add(Half(d, 0), Half(d, 16))
    ensures HighWord(Quarters(d)) == Add(Half(d, 32), Half(d, 48))
  {
  }

  lemma AddHalves(e: bv64)
    requires SmallWords(e)
    ensures Total(e) == Add(LowWord(e), HighWord(e))
  {
  }

  lemma AddBytes(c: bv64)
    requires SmallBytes(c)
    ensures
      Total(Quarters(Halves(c)))
      == Sum8(Byte(c, 0), Byte(c, 8), Byte(c, 16), Byte(c, 24), Byte(c, 32), Byte(c, 40), Byte(c, 48), Byte(c, 56))
  {
    AddPairs(c);
    AddQuads(Halves(c));
    AddHalves(Quarters(Halves(c)));
    hide Total, Quarters, Halves, Byte, Half, Add, LowWord, HighWord, SmallBytes, SmallHalves, SmallWords;
  }

  function WordSum(v: bv64): bv64 {
    Sum8(ByteSum(v, 0), ByteSum(v, 8), ByteSum(v, 16), ByteSum(v, 24),
         ByteSum(v, 32), ByteSum(v, 40), ByteSum(v, 48), ByteSum(v, 56))
  }

  lemma CountSetIsWordSum(v: bv64)
    ensures CountSet(v) == WordSum(v)
  {
    hide Pairs, Nibbles, Bytes, ByteSum, Byte, Halves, Quarters, Total, Sum8;
    BytesAreSmall(Nibbles(Pairs(v)));
    StagesAreLocal(v);
    AddBytes(Bytes(Nibbles(Pairs(v))));
    ByteStages(v, 0); ByteStages(v, 8); ByteStages(v, 16); ByteStages(v, 24);
    ByteStages(v, 32); ByteStages(v, 40); ByteStages(v, 48); ByteStages(v, 56);
  }

  // ---- in natural numbers ----

  function Value(v: bv64): nat { v as nat }

  function Less(b: bv64): bv64 { b - 1 }
  function More(b: bv64): bv64 { b + 1 }

  lemma MoreAssociates(a: bv64, b: bv64)
    ensures a + b == (a + (b - 1)) + 1
  {
  }

  /** Moving one from the second summand to the sum. */
  lemma AddMore(a: bv64, b: bv64)
    ensures Add(a, b) == More(Add(a, Less(b)))
  {
    calc {
      Add(a, b);
      a + b;
      { MoreAssociates(a, b); }
      (a + (b - 1)) + 1;
      More(a + (b - 1));
      More(Add(a, b - 1));
    }
  }

  lemma MoreValue(k: bv64)
    requires Value(k) < 64
    ensures Value(More(k)) == Value(k) + 1
  {
    SmallIndex(k);
    Increment(k);
  }

  lemma LessValue(k: bv64)
    requires 0 < Value(k) <= 32
    ensures Value(Less(k)) == Value(k) - 1
  {
    SmallValue(k);
    LessIsSmall(k);
    Increment(k - 1);
  }

  lemma LessIsSmall(k: bv64)
    requires 0 < k <= 32
    ensures k - 1 < 64 && (k - 1) + 1 == k
  {
  }

  lemma AddNothing(a: bv64, b: bv64)
    requires Value(b) == 0
    ensures Add(a, b) == a
  {
  }

  lemma SmallValue(a: bv64)
    ensures a as nat <= 32 <==> a <= 32
  {
  }

  lemma {:induction false} SmallAdd(a: bv64, b: bv64)
    requires Value(a) <= 32 && Value(b) <= 32
    ensures Value(Add(a, b)) == Value(a) + Value(b)
    decreases Value(b)
  {
    hide Value, Add, More, Less;
    if Value(b) == 0 {
      AddNothing(a, b);
    } else {
      LessValue(b);
      SmallAdd(a, Less(b));
      AddMore(a, b);
      MoreValue(Add(a, Less(b)));
    }
  }

  lemma Sum4Value(a: bv64, b: bv64, c: bv64, d: bv64)
    requires Value(a) <= 8 && Value(b) <= 8 && Value(c) <= 8 && Value(d) <= 8
    ensures Value(Add(Add(a, b), Add(c, d))) == Value(a) + Value(b) + Value(c) + Value(d)
  {
    hide Value, Add;
    SmallAdd(a, b);
    SmallAdd(c, d);
    SmallAdd(Add(a, b), Add(c, d));
  }

  lemma Sum8Value(a: bv64, b: bv64, c: bv64, d: bv64, e: bv64, f: bv64, g: bv64, h: bv64)
    requires Value(a) <= 8 && Value(b) <= 8 && Value(c) <= 8 && Value(d) <= 8
    requires Value(e) <= 8 && Value(f) <= 8 && Value(g) <= 8 && Value(h) <= 8
    ensures
      Value(Sum8(a, b, c, d, e, f, g, h))
      == Value(a) + Value(b) + Value(c) + Value(d) + Value(e) + Value(f) + Value(g) + Value(h)
  {
    hide Value, Add;
    Sum4Value(a, b, c, d);
    Sum4Value(e, f, g, h);
    SmallAdd(Add(Add(a, b), Add(c, d)), Add(Add(e, f), Add(g, h)));
  }

  // ---- the sum of the bits is the number of positions set ----

  lemma BitValue(v: bv64, k: bv64)
    requires k < 64
    ensures Value(BitOf(v, k)) == if BitAt(v, k) then 1 else 0
  {
  }

  lemma OnesStep(v: bv64, n: nat)
    requires n < 64
    ensures Ones(WordBits(v)[..n + 1]) == Ones(WordBits(v)[..n]) + Value(BitOf(v, Index(n)))
  {
    hide BitAt, BitOf, Index, Value;
    assert WordBits(v)[..n + 1][..n] == WordBits(v)[..n];
    BitValue(v, Index(n));
  }

  lemma OnesNibble(v: bv64, n: nat, k: bv64)
    requires n <= 60 && k == Index(n)
    ensures k <= 60
    ensures
      Ones(WordBits(v)[..n + 4])
      == Ones(WordBits(v)[..n]) + Value(BitOf(v, k)) + Value(BitOf(v, k + 1)) + Value(BitOf(v, k + 2)) + Value(BitOf(v, k + 3))
  {
    hide BitOf, Index, Value, Ones, WordBits;
    IndexRun(n);
    OnesStep(v, n); OnesStep(v, n + 1); OnesStep(v, n + 2); OnesStep(v, n + 3);
  }

  lemma IndexRun(n: nat)
    requires n <= 60
    ensures
      var k := Index(n);
      && k <= 60 && Index(n + 1) == k + 1 && Index(n + 2) == k + 2 && Index(n + 3) == k + 3
  {
    hide Index;
    IndexStep(n); IndexStep(n + 1); IndexStep(n + 2);
  }

  lemma ByteSumValue(v: bv64, k: bv64)
    requires k <= 56
    ensures
      Value(ByteSum(v, k))
      == Value(BitOf(v, k)) + Value(BitOf(v, k + 1)) + Value(BitOf(v, k + 2)) + Value(BitOf(v, k + 3))
      + Value(BitOf(v, k + 4)) + Value(BitOf(v, k + 5)) + Value(BitOf(v, k + 6)) + Value(BitOf(v, k + 7))
    ensures Value(ByteSum(v, k)) <= 8
  {
    hide Value, BitOf, Sum8, BitAt;
    BitValue(v, k); BitValue(v, k + 1); BitValue(v, k + 2); BitValue(v, k + 3);
    BitValue(v, k + 4); BitValue(v, k + 5); BitValue(v, k + 6); BitValue(v, k + 7);
    Sum8Value(BitOf(v, k), BitOf(v, k + 1), BitOf(v, k + 2), BitOf(v, k + 3),
              BitOf(v, k + 4), BitOf(v, k + 5), BitOf(v, k + 6), BitOf(v, k + 7));
  }

  lemma OnesByte(v: bv64, n: nat, k: bv64)
    requires n <= 56 && k <= 56 && k == Index(n) && k + 4 == Index(n + 4)
    ensures Ones(WordBits(v)[..n + 8]) == Ones(WordBits(v)[..n]) + Value(ByteSum(v, k))
    ensures Value(ByteSum(v, k)) <= 8
  {
    hide BitOf, Index, Value, Ones, WordBits, ByteSum;
    OnesNibble(v, n, k);
    OnesNibble(v, n + 4, k + 4);
    ByteSumValue(v, k);
  }

  lemma ByteIndices()
    ensures Index(0) == 0 && Index(4) == 4
    ensures Index(8) == 8 && Index(12) == 12
    ensures Index(16) == 16 && Index(20) == 20
    ensures Index(24) == 24 && Index(28) == 28
    ensures Index(32) == 32 && Index(36) == 36
    ensures Index(40) == 40 && Index(44) == 44
    ensures Index(48) == 48 && Index(52) == 52
    ensures Index(56) == 56 && Index(60) == 60
  {
  }

  lemma NoOnes(v: bv64)
    ensures Ones(WordBits(v)[..0]) == 0
  {
  }

  /** bimCountSet returns the number of one bits. */
  lemma CountSetIsOnes(v: bv64)
    ensures Value(CountSet(v)) == Ones(WordBits(v))
  {
    hide Index, Value, ByteSum, CountSet, Sum8, Ones, WordBits;
    NoOnes(v);
    ByteIndices();
    CountSetIsWordSum(v);
    OnesByte(v, 0, 0);
    OnesByte(v, 8, 8);
    OnesByte(v, 16, 16);
    OnesByte(v, 24, 24);
    OnesByte(v, 32, 32);
    OnesByte(v, 40, 40);
    OnesByte(v, 48, 48);
    OnesByte(v, 56, 56);
    Sum8Value(ByteSum(v, 0), ByteSum(v, 8), ByteSum(v, 16), ByteSum(v, 24),
              ByteSum(v, 32), ByteSum(v, 40), ByteSum(v, 48), ByteSum(v, 56));
    assert WordBits(v)[..64] == WordBits(v);
  }
}
