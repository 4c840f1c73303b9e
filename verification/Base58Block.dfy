/** One block of src/common/base58.cpp: 1 to 8 bytes against a fixed-width field of base-58 symbols.
    The first half gives the meaning over unbounded integers; the methods run on 64-bit words. */
module Base58Block {
  import opened Options
  import opened Octets
  import opened Numerals
  import opened Base58Tables

  const TWO64: nat := 0x1_0000_0000_0000_0000

  // ---------- Meaning ----------

  predicate AllSymbols(block: string)
  {
    forall i :: 0 <= i < |block| ==> Rank(block[i]) >= 0
  }

  function Ranks(block: string): (ds: seq<nat>)
    requires AllSymbols(block)
    ensures |ds| == |block|
  {
    seq(|block|, i requires 0 <= i < |block| => Rank(block[i]))
  }

  function Symbols(ds: seq<nat>): (block: string)
    requires DigitsBelow(ALPHABET_SIZE, ds)
    ensures |block| == |ds|
  {
    seq(|ds|, i requires 0 <= i < |ds| => ALPHABET[ds[i]])
  }

  function BlockValue(block: string): nat
    requires AllSymbols(block)
  {
    Value(ALPHABET_SIZE, Ranks(block))
  }

  /** The field of a block: the big-endian number of the bytes, in base 58, at the block's width. */
  function EncodedBlock(data: seq<byte>): (block: string)
    requires |data| <= FULL_BLOCK
    ensures |block| == ENCODED_SIZES[|data|]
  {
    Symbols(Field(ALPHABET_SIZE, Value(256, data), ENCODED_SIZES[|data|]))
  }

  predicate BlockAccepted(block: string)
  {
    var s := DecodedSize(|block|);
    s > 0 && AllSymbols(block) && BlockValue(block) < Pow(256, s)
  }

  function BytesOf(n: nat, s: nat): (data: seq<byte>)
    ensures |data| == s
  {
    Field(256, n, s)
  }

  function DecodedBlock(block: string): Option<seq<byte>>
  {
    if BlockAccepted(block) then Some(BytesOf(BlockValue(block), DecodedSize(|block|))) else None
  }

  lemma RanksOfSymbols(ds: seq<nat>)
    requires DigitsBelow(ALPHABET_SIZE, ds)
    ensures AllSymbols(Symbols(ds)) && Ranks(Symbols(ds)) == ds
  {
    forall i | 0 <= i < |ds|
      ensures Rank(Symbols(ds)[i]) == ds[i]
    {
      RankOfSymbol(ds[i]);
    }
  }

  lemma SymbolsOfRanks(block: string)
    requires AllSymbols(block)
    ensures DigitsBelow(ALPHABET_SIZE, Ranks(block)) && Symbols(Ranks(block)) == block
  {
    forall i | 0 <= i < |block|
      ensures Ranks(block)[i] < ALPHABET_SIZE && ALPHABET[Ranks(block)[i]] == block[i]
    {
      SymbolOfRank(block[i]);
    }
  }

  lemma Powers256()
    ensures Pow(256, 1) == 0x100 && Pow(256, 2) == 0x1_0000 && Pow(256, 3) == 0x100_0000
    ensures Pow(256, 4) == 0x1_0000_0000 && Pow(256, 5) == 0x100_0000_0000
    ensures Pow(256, 6) == 0x1_0000_0000_0000 && Pow(256, 7) == 0x100_0000_0000_0000
    ensures Pow(256, 8) == TWO64
  {
    assert Pow(256, 2) == 256 * Pow(256, 1);
    assert Pow(256, 3) == 256 * Pow(256, 2);
    assert Pow(256, 4) == 256 * Pow(256, 3);
    assert Pow(256, 5) == 256 * Pow(256, 4);
    assert Pow(256, 6) == 256 * Pow(256, 5);
    assert Pow(256, 7) == 256 * Pow(256, 6);
  }

  lemma Powers58()
    ensures Pow(58, 1) == 58 && Pow(58, 2) == 3364 && Pow(58, 3) == 195112 && Pow(58, 4) == 11316496
    ensures Pow(58, 5) == 656356768 && Pow(58, 6) == 38068692544 && Pow(58, 7) == 2207984167552
    ensures Pow(58, 8) == 128063081718016 && Pow(58, 9) == 7427658739644928
    ensures Pow(58, 10) == 430804206899405824 && Pow(58, 11) == 24986644000165537792
  {
    assert Pow(58, 2) == 58 * Pow(58, 1);
    assert Pow(58, 3) == 58 * Pow(58, 2);
    assert Pow(58, 4) == 58 * Pow(58, 3);
    assert Pow(58, 5) == 58 * Pow(58, 4);
    assert Pow(58, 6) == 58 * Pow(58, 5);
    assert Pow(58, 7) == 58 * Pow(58, 6);
    assert Pow(58, 8) == 58 * Pow(58, 7);
    assert Pow(58, 9) == 58 * Pow(58, 8);
    assert Pow(58, 10) == 58 * Pow(58, 9);
  }

  /** Every field is wide enough for its bytes, and no number above `Pow(256, 8)` is ever needed. */
  lemma FieldWideEnough(s: nat)
    requires s <= FULL_BLOCK
    ensures Pow(256, s) <= Pow(ALPHABET_SIZE, ENCODED_SIZES[s])
    ensures Pow(256, s) <= TWO64
  {
    Powers256();
    Powers58();
  }

  /** And no field is wider than it has to be. */
  lemma FieldNotTooWide(s: nat)
    requires 1 <= s <= 8
    ensures Pow(58, ENCODED_SIZES[s] - 1) < Pow(256, s) <= Pow(58, ENCODED_SIZES[s])
  {
    Powers256();
    Powers58();
  }

  lemma BlockValueOfField(n: nat, e: nat)
    requires n < Pow(ALPHABET_SIZE, e)
    ensures var block := Symbols(Field(ALPHABET_SIZE, n, e));
            AllSymbols(block) && BlockValue(block) == n
  {
    ValueOfField(ALPHABET_SIZE, n, e);
    RanksOfSymbols(Field(ALPHABET_SIZE, n, e));
  }

  lemma SizeOfEncodedSize(s: nat)
    requires s <= FULL_BLOCK
    ensures DecodedSize(ENCODED_SIZES[s]) == s
  {
  }

  /** A block of bytes and its symbols are the same number, in base 256 and in base 58. */
  lemma SameNumber(data: seq<byte>)
    requires |data| <= 8
    ensures |EncodedBlock(data)| == [0, 2, 3, 5, 6, 7, 9, 10, 11][|data|]
    ensures AllSymbols(EncodedBlock(data)) && Value(58, Ranks(EncodedBlock(data))) == Value(256, data)
  {
    ValueBound(256, data);
    FieldWideEnough(|data|);
    BlockValueOfField(Value(256, data), ENCODED_SIZES[|data|]);
  }

  /** Decoding an encoded block returns its bytes. */
  lemma DecodeOfEncodeBlock(data: seq<byte>)
    requires 1 <= |data| <= FULL_BLOCK
    ensures DecodedBlock(EncodedBlock(data)) == Some(data)
  {
    ValueBound(256, data);
    FieldWideEnough(|data|);
    SizeOfEncodedSize(|data|);
    BlockValueOfField(Value(256, data), ENCODED_SIZES[|data|]);
    FieldOfValue(256, data);
  }

  /** An accepted block is the only encoding of its bytes. */
  lemma EncodeOfDecodeBlock(block: string)
    requires BlockAccepted(block)
    ensures var d := DecodedBlock(block).value;
            |d| == DecodedSize(|block|) && EncodedBlock(d) == block
  {
    var s, n := DecodedSize(|block|), BlockValue(block);
    ValueOfField(256, n, s);
    SymbolsOfRanks(block);
    FieldOfValue(ALPHABET_SIZE, Ranks(block));
  }

  // ---------- 64-bit words ----------

  /** `uint_8be_to_64`: each fall-through case shifts the word left one byte and ors the next byte in;
      the low byte of a shifted word is clear, so the or adds. */
  method Uint8beTo64(data: seq<byte>) returns (res: nat)
    requires 1 <= |data| <= FULL_BLOCK
    ensures res == Value(256, data) && res < TWO64
  {
    res := 0;
    for k := 0 to |data|
      invariant res == Value(256, data[..k])
    {
      assert data[..k + 1][..k] == data[..k];
      PrefixFits(data, k);
      res := res * 256 % TWO64 + data[k];
    }
    assert data[..|data|] == data;
    ValueBound(256, data);
    FieldWideEnough(|data|);
  }

  lemma PrefixFits(data: seq<byte>, k: nat)
    requires k < |data| <= FULL_BLOCK
    ensures Value(256, data[..k]) * 256 < TWO64
  {
    ValueBound(256, data[..k]);
    PowMonotone(256, k, 7);
    Powers256();
  }

  /** `uint_64_to_8be`: the last `size` of the eight big-endian bytes of `num`. */
  method Uint64To8be(num: nat, size: nat, data: array<byte>, off: nat)
    requires num < TWO64 && 1 <= size <= FULL_BLOCK && off + size <= data.Length
    modifies data
    ensures data[..] == old(data[..off]) + BytesOf(num, size) + old(data[off + size..])
  {
    var be := BytesOf(num, FULL_BLOCK);
    FieldTail(256, num, FULL_BLOCK - size, size);
    forall k | 0 <= k < size {
      data[off + k] := be[FULL_BLOCK - size + k];
    }
  }

  lemma PeelDigit(num: nat, k: nat)
    requires num < Pow(ALPHABET_SIZE, k + 1)
    ensures num / 58 < Pow(ALPHABET_SIZE, k)
    ensures Field(ALPHABET_SIZE, num, k + 1) == Field(ALPHABET_SIZE, num / 58, k) + [num % 58]
  {
    QuotUnique(num / 58, 58, num % 58);
    QuotBelow(num, ALPHABET_SIZE, Pow(ALPHABET_SIZE, k));
  }

  lemma FillStep(num: nat, i: nat, ds: seq<nat>)
    requires i < |ds| && num < Pow(ALPHABET_SIZE, i + 1) && Field(ALPHABET_SIZE, num, i + 1) == ds[..i + 1]
    ensures ds[i] == num % 58 && num / 58 < Pow(ALPHABET_SIZE, i)
    ensures Field(ALPHABET_SIZE, num / 58, i) == ds[..i]
  {
    PeelDigit(num, i);
    assert ds[i] == ds[..i + 1][i];
    assert ds[..i] == ds[..i + 1][..i];
  }

  lemma LeadingZeros(n: nat, ds: seq<nat>)
    requires n <= |ds| && Field(ALPHABET_SIZE, 0, n) == ds[..n]
    ensures forall k :: 0 <= k < n ==> ds[k] == 0
  {
    forall k | 0 <= k < n
      ensures ds[k] == 0
    {
      ZeroField(ALPHABET_SIZE, n, k);
      assert ds[..n][k] == ds[k];
    }
  }

  /** The digit loop of `encode_block` on a field of `e` symbols already filled with the zero digit. */
  method FillField(letters: string, number: nat, e: nat, res: array<char>, off: nat)
    requires |letters| == ALPHABET_SIZE && off + e <= res.Length && number < Pow(ALPHABET_SIZE, e)
    requires forall k :: off <= k < off + e ==> res[k] == letters[0]
    modifies res
    ensures forall k :: off <= k < off + e ==>
      res[k] == letters[Field(ALPHABET_SIZE, number, e)[k - off]]
    ensures forall k :: 0 <= k < off || off + e <= k < res.Length ==> res[k] == old(res[k])
  {
    var num: nat := number;
    var i := e - 1;
    ghost var ds := Field(ALPHABET_SIZE, num, e);
    while 0 < num
      invariant -1 <= i < e
      invariant num < Pow(ALPHABET_SIZE, i + 1)
      invariant Field(ALPHABET_SIZE, num, i + 1) == ds[..i + 1]
      invariant forall k :: off <= k <= off + i ==> res[k] == letters[0]
      invariant forall k :: off + i < k < off + e ==> res[k] == letters[ds[k - off]]
      invariant forall k :: 0 <= k < off || off + e <= k < res.Length ==> res[k] == old(res[k])
    {
      FillStep(num, i, ds);
      var remainder := num % ALPHABET_SIZE;
      num := num / ALPHABET_SIZE;
      res[off + i] := letters[remainder];
      i := i - 1;
    }
    LeadingZeros(i + 1, ds);
  }

  lemma Spliced(was: string, s: string, off: nat, field: string)
    requires |s| == |was| && off + |field| <= |s|
    requires forall k :: off <= k < off + |field| ==> s[k] == field[k - off]
    requires forall k :: 0 <= k < off || off + |field| <= k < |s| ==> s[k] == was[k]
    ensures s == was[..off] + field + was[off + |field|..]
  {
  }

  /** A field filled in place is the symbols of its digits. */
  method WriteField(number: nat, e: nat, res: array<char>, off: nat)
    requires off + e <= res.Length && number < Pow(ALPHABET_SIZE, e)
    requires forall k :: off <= k < off + e ==> res[k] == ALPHABET[0]
    modifies res
    ensures res[..] == old(res[..off]) + Symbols(Field(ALPHABET_SIZE, number, e)) + old(res[off + e..])
  {
    ghost var was := res[..];
    FillField(ALPHABET, number, e, res, off);
    Spliced(was, res[..], off, Symbols(Field(ALPHABET_SIZE, number, e)));
    assert was[..off] == old(res[..off]) && was[off + e..] == old(res[off + e..]);
  }

  /** `encode_block`: fills its field from the right, leaving the leading zero digits as they were allocated. */
  method EncodeBlock(block: seq<byte>, res: array<char>, off: nat)
    requires 1 <= |block| <= FULL_BLOCK
    requires off + ENCODED_SIZES[|block|] <= res.Length
    requires forall k :: off <= k < off + ENCODED_SIZES[|block|] ==> res[k] == ALPHABET[0]
    modifies res
    ensures res[..] == old(res[..off]) + EncodedBlock(block) + old(res[off + ENCODED_SIZES[|block|]..])
  {
    var num := Uint8beTo64(block);
    ValueBound(256, block);
    FieldWideEnough(|block|);
    WriteField(num, ENCODED_SIZES[|block|], res, off);
  }

  /** `mul128`: the exact product as a high and a low word. */
  method Mul128(x: nat, y: nat) returns (hi: nat, lo: nat)
    ensures hi * TWO64 + lo == x * y && lo < TWO64
  {
    var p := x * y;
    hi, lo := p / TWO64, p % TWO64;
  }

  lemma {:induction false} SuffixBound(b: nat, hi: seq<nat>, lo: seq<nat>)
    ensures Value(b, lo) <= Value(b, hi + lo)
  {
    ValueAppend(b, hi, lo);
    MulMonotone(0, Value(b, hi), Pow(b, |lo|));
  }

  lemma RanksSplit(block: string, i: nat)
    requires i < |block| && AllSymbols(block[i..])
    ensures AllSymbols(block[i + 1..]) && Rank(block[i]) >= 0
    ensures BlockValue(block[i..])
         == Rank(block[i]) * Pow(ALPHABET_SIZE, |block| - 1 - i) + BlockValue(block[i + 1..])
  {
    assert block[i..][0] == block[i];
    assert block[i..] == [block[i]] + block[i + 1..];
    var d: nat := Rank(block[i]);
    assert Ranks(block[i..]) == [d] + Ranks(block[i + 1..]);
    ValueAppend(ALPHABET_SIZE, [d], Ranks(block[i + 1..]));
    assert Value(ALPHABET_SIZE, [d]) == d;
  }

  lemma BlockValueSuffix(block: string, i: nat)
    requires i <= |block| && AllSymbols(block)
    ensures AllSymbols(block[i..]) && BlockValue(block[i..]) <= BlockValue(block)
  {
    assert block == block[..i] + block[i..];
    assert Ranks(block) == Ranks(block[..i]) + Ranks(block[i..]);
    SuffixBound(ALPHABET_SIZE, Ranks(block[..i]), Ranks(block[i..]));
  }

  /** Each wrapped test of the source fires exactly when the true sum leaves 64 bits. */
  lemma WrapTest(r: nat, product: nat, hi: nat, lo: nat)
    requires r < TWO64 && hi * TWO64 + lo == product && lo < TWO64
    ensures var tmp := (r + lo) % TWO64;
            && (tmp < r || hi != 0 <==> r + product >= TWO64)
            && (r + product < TWO64 ==> tmp == r + product)
  {
  }

  lemma ShiftIsPower(s: nat)
    ensures Pow(2, 8 * s) == Pow(256, s)
  {
    if s > 0 {
      ShiftIsPower(s - 1);
      PowAdd(2, 8, 8 * (s - 1));
      SmallPowers();
    }
  }

  /** `n` is the value of the block from position `i` on. */
  predicate Summed(block: string, i: nat, n: nat)
  {
    i <= |block| && AllSymbols(block[i..]) && n == BlockValue(block[i..])
  }

  /** One digit of `decode_block`: its place in the block's value, and when the block is out of range. */
  lemma DigitPlace(block: string, i: nat, s: nat, n: nat, product: nat)
    requires i < |block| && Summed(block, i + 1, n) && Rank(block[i]) >= 0 && s <= FULL_BLOCK
    requires product == Rank(block[i]) * Pow(ALPHABET_SIZE, |block| - 1 - i)
    ensures Summed(block, i, n + product)
    ensures n + product >= TWO64 && AllSymbols(block) ==> BlockValue(block) >= Pow(256, s)
  {
    assert block[i..] == [block[i]] + block[i + 1..];
    RanksSplit(block, i);
    FieldWideEnough(s);
    if AllSymbols(block) { BlockValueSuffix(block, i); }
  }

  /** One sum of `decode_block`, with both overflow tests. */
  method AddDigit(resNum: nat, order: nat, digit: nat) returns (overflow: bool, tmp: nat)
    requires resNum < TWO64
    ensures overflow <==> resNum + digit * order >= TWO64
    ensures !overflow ==> tmp == resNum + digit * order
  {
    var productHi, productLo := Mul128(digit, order);
    WrapTest(resNum, digit * order, productHi, productLo);
    tmp := (resNum + productLo) % TWO64;
    overflow := tmp < resNum || productHi != 0;
  }

  /** The weight of the next digit in 64 bits: exact while it is still used. */
  function NextOrder(order: nat): nat
  {
    order * ALPHABET_SIZE % TWO64
  }

  /** Every weight that is used is below 64 bits; only the one after an 11-symbol block would wrap. */
  lemma OrderFits(k: nat)
    requires 1 <= k <= 10
    ensures NextOrder(Pow(ALPHABET_SIZE, k - 1)) == Pow(ALPHABET_SIZE, k)
  {
    Powers58();
    PowMonotone(ALPHABET_SIZE, k, 10);
  }

  /** The digit loop of `decode_block`: wrapping 64-bit arithmetic, right to left, with explicit overflow tests. */
  method SumDigits(t: ReverseTables, block: string, ghost s: nat) returns (ok: bool, resNum: nat)
    requires t.Valid() && 1 <= |block| <= FULL_ENCODED_BLOCK && s <= FULL_BLOCK
    ensures ok ==> AllSymbols(block) && resNum == BlockValue(block) && resNum < TWO64
    ensures !ok ==> !AllSymbols(block) || BlockValue(block) >= Pow(256, s)
  {
    var order := 1;
    resNum := 0;
    var i := |block| - 1;
    assert block[|block|..] == [];
    assert Summed(block, |block|, 0);
    while i >= 0
      invariant -1 <= i < |block|
      invariant Summed(block, i + 1, resNum) && resNum < TWO64
      invariant i >= 0 ==> order == Pow(ALPHABET_SIZE, |block| - 1 - i)
    {
      var digit := t.Letter(block[i]);
      if digit < 0 {
        assert !AllSymbols(block);
        return false, 0;
      }
      var overflow, tmp := AddDigit(resNum, order, digit);
      DigitPlace(block, i, s, resNum, digit * order);
      if overflow {
        return false, 0;
      }
      resNum := tmp;
      if i > 0 { OrderFits(|block| - i); }
      order := NextOrder(order);
      i := i - 1;
    }
    assert block[0..] == block;
    ok := true;
  }

  /** `decode_block`: accepts exactly the blocks whose unbounded value fits, and then writes that value
      big-endian. */
  method DecodeBlock(t: ReverseTables, block: string, res: array<byte>, off: nat) returns (ok: bool)
    requires t.Valid() && 1 <= |block| <= FULL_ENCODED_BLOCK
    requires DecodedSize(|block|) >= 0 ==> off + DecodedSize(|block|) <= res.Length
    modifies res
    ensures ok == BlockAccepted(block)
    ensures !ok ==> res[..] == old(res[..])
    ensures ok ==>
      res[..] == old(res[..off]) + DecodedBlock(block).value + old(res[off + DecodedSize(|block|)..])
  {
    var resSize := t.Size(|block|);
    if resSize <= 0 {
      return false;
    }
    var summed, resNum := SumDigits(t, block, resSize);
    if !summed {
      return false;
    }
    ShiftIsPower(resSize);
    if resSize < FULL_BLOCK && Pow(2, 8 * resSize) <= resNum {
      return false;
    }
    Powers256();
    Uint64To8be(resNum, resSize, res, off);
    return true;
  }
}
