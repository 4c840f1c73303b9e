/** Whole strings of src/common/base58.cpp: `encode` and `decode`. */
module Base58 {
  import opened Options
  import opened Octets
  import opened Base58Tables
  import opened Base58Block

  function Encoded58(data: seq<byte>): string
  {
    if |data| < FULL_BLOCK then EncodedBlock(data)
    else EncodedBlock(data[..FULL_BLOCK]) + Encoded58(data[FULL_BLOCK..])
  }

  function Decoded58(enc: string): Option<seq<byte>>
  {
    if enc == [] then Some([])
    else if |enc| < FULL_ENCODED_BLOCK then DecodedBlock(enc)
    else
      match (DecodedBlock(enc[..FULL_ENCODED_BLOCK]), Decoded58(enc[FULL_ENCODED_BLOCK..]))
      case (Some(d), Some(ds)) => Some(d + ds)
      case _ => None
  }

  /** Decoding an encoded string returns its bytes, for every byte string. */
  lemma {:induction false} DecodeOfEncode(data: seq<byte>)
    ensures Decoded58(Encoded58(data)) == Some(data)
  {
    if data == [] {
    } else if |data| < FULL_BLOCK {
      DecodeOfEncodeBlock(data);
    } else {
      var d, ds := data[..FULL_BLOCK], data[FULL_BLOCK..];
      DecodeOfEncodeBlock(d);
      DecodeOfEncode(ds);
      var enc := Encoded58(data);
      assert enc[..FULL_ENCODED_BLOCK] == EncodedBlock(d);
      assert enc[FULL_ENCODED_BLOCK..] == Encoded58(ds);
      assert data == d + ds;
    }
  }

  /** Every accepted string is the encoding of what it decodes to. */
  lemma {:induction false} EncodeOfDecode(enc: string)
    requires Decoded58(enc).Some?
    ensures Encoded58(Decoded58(enc).value) == enc
  {
    if enc == [] {
    } else if |enc| < FULL_ENCODED_BLOCK {
      EncodeOfDecodeBlock(enc);
    } else {
      var e, es := enc[..FULL_ENCODED_BLOCK], enc[FULL_ENCODED_BLOCK..];
      EncodeOfDecodeBlock(e);
      EncodeOfDecode(es);
      var d, ds := DecodedBlock(e).value, Decoded58(es).value;
      assert Decoded58(enc).value == d + ds;
      assert (d + ds)[..FULL_BLOCK] == d && (d + ds)[FULL_BLOCK..] == ds;
      assert enc == e + es;
    }
  }

  /** `decode` accepts exactly the image of `encode`, and inverts it there. */
  lemma DecodeExact(enc: string, data: seq<byte>)
    ensures Decoded58(enc) == Some(data) <==> enc == Encoded58(data)
  {
    DecodeOfEncode(data);
    if Decoded58(enc).Some? { EncodeOfDecode(enc); }
  }

  /** The symbols of `n` bytes: eleven for every eight of them, and a shorter field for the rest. */
  function LengthOf(n: nat): nat
  {
    if n < 8 then ENCODED_SIZES[n] else 11 + LengthOf(n - 8)
  }

  lemma {:induction false} LengthFormula(n: nat)
    ensures LengthOf(n) == n / 8 * 11 + ENCODED_SIZES[n % 8]
  {
    if n >= 8 {
      LengthFormula(n - 8);
      assert n / 8 == (n - 8) / 8 + 1 && n % 8 == (n - 8) % 8;
    }
  }

  lemma {:induction false} BlocksLength(data: seq<byte>)
    ensures |Encoded58(data)| == LengthOf(|data|)
  {
    if |data| >= 8 { BlocksLength(data[8..]); }
  }

  /** The text is as long as its blocks. */
  lemma EncodedLength(data: seq<byte>)
    ensures |Encoded58(data)| == |data| / 8 * 11 + ENCODED_SIZES[|data| % 8]
  {
    BlocksLength(data);
    LengthFormula(|data|);
  }

  /** Block `k` of the text is the encoding of block `k` of the bytes, the last one included. */
  lemma {:induction false} BlockAt(data: seq<byte>, k: nat)
    requires 8 * k <= |data|
    ensures 11 * k <= |Encoded58(data)|
    ensures |data| < 8 * k + 8 ==> Encoded58(data)[11 * k..] == EncodedBlock(data[8 * k..])
    ensures |data| >= 8 * k + 8 ==>
              && 11 * k + 11 <= |Encoded58(data)|
              && Encoded58(data)[11 * k..11 * k + 11] == EncodedBlock(data[8 * k..8 * k + 8])
    decreases k
  {
    var e := Encoded58(data);
    if k == 0 {
      assert e[0..] == e && data[0..] == data;
    } else {
      var p, q := 11 * (k - 1), 8 * (k - 1);
      BlockAt(data[8..], k - 1);
      assert e == EncodedBlock(data[..8]) + Encoded58(data[8..]);
      assert e[11..] == Encoded58(data[8..]);
      assert e[11..][p..] == e[11 + p..] && data[8..][q..] == data[8 + q..];
      if |data| >= 8 * k + 8 {
        assert e[11..][p..p + 11] == e[11 + p..11 + p + 11];
        assert data[8..][q..q + 8] == data[8 + q..8 + q + 8];
      }
    }
  }

  lemma DropBlockLength(n: nat)
    requires n >= FULL_ENCODED_BLOCK
    ensures n % FULL_ENCODED_BLOCK == (n - FULL_ENCODED_BLOCK) % FULL_ENCODED_BLOCK
  {
  }

  lemma {:induction false} DecodedLength(enc: string)
    requires Decoded58(enc).Some?
    ensures DecodedSize(|enc| % FULL_ENCODED_BLOCK) >= 0
  {
    if |enc| >= FULL_ENCODED_BLOCK {
      assert Decoded58(enc[FULL_ENCODED_BLOCK..]).Some?;
      DecodedLength(enc[FULL_ENCODED_BLOCK..]);
      DropBlockLength(|enc|);
    } else if |enc| > 0 {
      ShortLength(enc);
    }
  }

  lemma ShortLength(block: string)
    requires DecodedBlock(block).Some? && |block| < FULL_ENCODED_BLOCK
    ensures |block| % FULL_ENCODED_BLOCK == |block| && DecodedSize(|block|) >= 0
  {
  }

  lemma SliceAt<T>(s: seq<T>, p: nat, n: nat)
    requires p + n <= |s|
    ensures s[p..][..n] == s[p..p + n] && s[p..][n..] == s[p + n..]
  {
  }

  /** `encode_block` on a block of full size. */
  method EncodeFullBlock(block: seq<byte>, res: array<char>, off: nat)
    requires |block| == FULL_BLOCK && off + FULL_ENCODED_BLOCK <= res.Length
    requires forall k :: off <= k < off + FULL_ENCODED_BLOCK ==> res[k] == ALPHABET[0]
    modifies res
    ensures res[..] == old(res[..])[..off] + EncodedBlock(block) + old(res[..])[off + FULL_ENCODED_BLOCK..]
  {
    ghost var was := res[..];
    assert ENCODED_SIZES[|block|] == FULL_ENCODED_BLOCK;
    assert was[..off] == res[..off] && was[off + FULL_ENCODED_BLOCK..] == res[off + FULL_ENCODED_BLOCK..];
    EncodeBlock(block, res, off);
  }

  /** The full blocks of `encode`. */
  method EncodeFullBlocks(data: seq<byte>, fullBlocks: nat, res: array<char>)
    requires fullBlocks * FULL_BLOCK <= |data| && fullBlocks * FULL_ENCODED_BLOCK <= res.Length
    requires forall k :: 0 <= k < res.Length ==> res[k] == ALPHABET[0]
    modifies res
    ensures Filled(res[..], fullBlocks * FULL_ENCODED_BLOCK, data[fullBlocks * FULL_BLOCK..], Encoded58(data))
  {
    assert data[0..] == data && res[..0] + Encoded58(data) == Encoded58(data);
    for i := 0 to fullBlocks
      invariant Filled(res[..], i * FULL_ENCODED_BLOCK, data[i * FULL_BLOCK..], Encoded58(data))
    {
      ghost var was := res[..];
      var block := data[i * FULL_BLOCK..i * FULL_BLOCK + FULL_BLOCK];
      ghost var at, rest := i * FULL_ENCODED_BLOCK, data[i * FULL_BLOCK..];
      SliceAt(data, i * FULL_BLOCK, FULL_BLOCK);
      EncodeFullBlock(block, res, i * FULL_ENCODED_BLOCK);
      BlockFilled(was, res[..], at, rest, Encoded58(data));
    }
  }

  /** `encode`: one result buffer filled with the zero digit, then block by block. */
  method Encode(data: seq<byte>) returns (enc: string)
    ensures enc == Encoded58(data)
  {
    if |data| == 0 {
      return "";
    }
    var fullBlocks := |data| / FULL_BLOCK;
    var lastSize := |data| % FULL_BLOCK;
    var res := new char[fullBlocks * FULL_ENCODED_BLOCK + ENCODED_SIZES[lastSize]](_ => ALPHABET[0]);
    EncodeFullBlocks(data, fullBlocks, res);
    ghost var at, rest := fullBlocks * FULL_ENCODED_BLOCK, data[fullBlocks * FULL_BLOCK..];
    if 0 < lastSize {
      ghost var done := res[..at];
      EncodeBlock(data[fullBlocks * FULL_BLOCK..], res, fullBlocks * FULL_ENCODED_BLOCK);
      assert res[..] == done + EncodedBlock(rest);
    } else {
      assert res[..at] == res[..];
    }
    enc := res[..];
  }

  /** The buffer is final up to `at`, still zero digits from there on, and `rest` is what remains to encode. */
  ghost predicate Filled(buf: string, at: nat, rest: seq<byte>, enc: string)
  {
    && at <= |buf|
    && buf[..at] + Encoded58(rest) == enc
    && forall k :: at <= k < |buf| ==> buf[k] == ALPHABET[0]
  }

  lemma BlockFilled(was: string, buf: string, at: nat, rest: seq<byte>, enc: string)
    requires Filled(was, at, rest, enc) && |rest| >= FULL_BLOCK && at + FULL_ENCODED_BLOCK <= |was|
    requires buf == was[..at] + EncodedBlock(rest[..FULL_BLOCK]) + was[at + FULL_ENCODED_BLOCK..]
    ensures Filled(buf, at + FULL_ENCODED_BLOCK, rest[FULL_BLOCK..], enc)
  {
    var block := EncodedBlock(rest[..FULL_BLOCK]);
    assert buf[..at + FULL_ENCODED_BLOCK] == was[..at] + block;
    assert was[..at] + (block + Encoded58(rest[FULL_BLOCK..])) == (was[..at] + block) + Encoded58(rest[FULL_BLOCK..]);
  }

  /** `done` has been decoded, and `rest` decides the outcome. */
  ghost predicate Pending(enc: string, done: seq<byte>, rest: string)
  {
    Decoded58(enc) == Append(done, Decoded58(rest))
  }

  lemma StartPending(enc: string)
    ensures Pending(enc, [], enc)
  {
    AppendNothing(Decoded58(enc));
  }

  lemma BlockPending(enc: string, done: seq<byte>, rest: string)
    requires Pending(enc, done, rest) && |rest| >= FULL_ENCODED_BLOCK
    ensures var block := rest[..FULL_ENCODED_BLOCK];
            if BlockAccepted(block)
            then Pending(enc, done + DecodedBlock(block).value, rest[FULL_ENCODED_BLOCK..])
            else Decoded58(enc) == None
  {
    var block := rest[..FULL_ENCODED_BLOCK];
    if BlockAccepted(block) {
      AppendStep(done, DecodedBlock(block).value, Decoded58(rest[FULL_ENCODED_BLOCK..]));
    }
  }

  /** `decode_block` on a block of full size, after the bytes already decoded. */
  method DecodeFullBlock(t: ReverseTables, block: string, res: array<byte>, at: nat) returns (ok: bool)
    requires t.Valid() && |block| == FULL_ENCODED_BLOCK && at + FULL_BLOCK <= res.Length
    modifies res
    ensures ok == BlockAccepted(block)
    ensures ok ==> res[..at + FULL_BLOCK] == old(res[..at]) + DecodedBlock(block).value
  {
    ok := DecodeBlock(t, block, res, at);
  }

  /** One more full block, as the loop of `decode` cuts it out. */
  lemma NextPending(enc: string, done: seq<byte>, p: nat)
    requires p + FULL_ENCODED_BLOCK <= |enc| && Pending(enc, done, enc[p..])
    ensures var block := enc[p..p + FULL_ENCODED_BLOCK];
            if BlockAccepted(block)
            then Pending(enc, done + DecodedBlock(block).value, enc[p + FULL_ENCODED_BLOCK..])
            else Decoded58(enc) == None
  {
    BlockPending(enc, done, enc[p..]);
    SliceAt(enc, p, FULL_ENCODED_BLOCK);
  }

  /** The full blocks of `decode`; stops at the first one refused. */
  method DecodeFullBlocks(t: ReverseTables, enc: string, fullBlocks: nat, res: array<byte>) returns (ok: bool)
    requires t.Valid() && fullBlocks * FULL_ENCODED_BLOCK <= |enc| && fullBlocks * FULL_BLOCK <= res.Length
    modifies res
    ensures !ok ==> Decoded58(enc) == None
    ensures ok ==> Pending(enc, res[..fullBlocks * FULL_BLOCK], enc[fullBlocks * FULL_ENCODED_BLOCK..])
  {
    StartPending(enc);
    assert enc[0..] == enc && res[..0] == [];
    var from, at := 0, 0;
    for i := 0 to fullBlocks
      invariant t.Valid() && from == i * FULL_ENCODED_BLOCK && at == i * FULL_BLOCK
      invariant Pending(enc, res[..at], enc[from..])
    {
      NextPending(enc, res[..at], from);
      var r := DecodeFullBlock(t, enc[from..from + FULL_ENCODED_BLOCK], res, at);
      if !r {
        return false;
      }
      from, at := from + FULL_ENCODED_BLOCK, at + FULL_BLOCK;
    }
    return true;
  }

  /** `decode`: the length is checked first, then every block is decoded into the result buffer. */
  method Decode(t: ReverseTables, enc: string) returns (ok: bool, data: seq<byte>)
    requires t.Valid()
    ensures ok == Decoded58(enc).Some?
    ensures ok ==> data == Decoded58(enc).value
  {
    if |enc| == 0 {
      return true, [];
    }
    var fullBlocks := |enc| / FULL_ENCODED_BLOCK;
    var lastSize := |enc| % FULL_ENCODED_BLOCK;
    var lastDecoded := t.Size(lastSize);
    if Decoded58(enc).Some? { DecodedLength(enc); }
    if lastDecoded < 0 {
      return false, [];
    }
    var res := new byte[fullBlocks * FULL_BLOCK + lastDecoded](_ => 0);
    var r := DecodeFullBlocks(t, enc, fullBlocks, res);
    if !r {
      return false, [];
    }
    ghost var at, rest := fullBlocks * FULL_BLOCK, enc[fullBlocks * FULL_ENCODED_BLOCK..];
    if 0 < lastSize {
      ghost var done := res[..at];
      r := DecodeBlock(t, enc[fullBlocks * FULL_ENCODED_BLOCK..], res, fullBlocks * FULL_BLOCK);
      if !r {
        return false, [];
      }
      assert res[..] == done + DecodedBlock(rest).value;
    } else {
      assert res[..at] == res[..];
    }
    return true, res[..];
  }

  ghost function Append(done: seq<byte>, o: Option<seq<byte>>): Option<seq<byte>>
  {
    match o
    case Some(ds) => Some(done + ds)
    case None => None
  }

  lemma AppendNothing(o: Option<seq<byte>>)
    ensures Append([], o) == o
  {
    if o.Some? { assert [] + o.value == o.value; }
  }

  lemma AppendStep(done: seq<byte>, d: seq<byte>, o: Option<seq<byte>>)
    ensures Append(done, Append(d, o)) == Append(done + d, o)
  {
    if o.Some? { assert done + (d + o.value) == (done + d) + o.value; }
  }
}
