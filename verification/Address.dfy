/** Tagged, checksummed addresses of src/common/base58.cpp: `encode_addr` and `decode_addr`. */
module Address {
  import opened Options
  import opened Octets
  import opened Numerals
  import opened Varint
  import opened Base58Tables
  import opened Base58

  const CHECKSUM: nat := 4
  const TAG_BITS: nat := 64

  type Digest = d: seq<byte> | |d| == 32 witness seq(32, _ => 0)

  /** `cn_fast_hash`, as an arbitrary function. */
  type Hash = seq<byte> -> Digest

  function Sealed(hash: Hash, payload: seq<byte>): seq<byte>
  {
    payload + hash(payload)[..CHECKSUM]
  }

  function EncodedAddr(hash: Hash, tag: nat, data: seq<byte>): string
  {
    Encoded58(Sealed(hash, Encoded(tag) + data))
  }

  /** The bytes under the checksum, when it is right. */
  function Unsealed(hash: Hash, raw: seq<byte>): (o: Option<seq<byte>>)
    ensures o.Some? ==> o.value != []
  {
    if |raw| <= CHECKSUM then None
    else
      var payload := raw[..|raw| - CHECKSUM];
      if hash(payload)[..CHECKSUM] == raw[|raw| - CHECKSUM..] then Some(payload) else None
  }

  /** The bytes under the checksum, when the text decodes and the checksum is right. */
  function Payload(hash: Hash, addr: string): (o: Option<seq<byte>>)
    ensures o.Some? ==> o.value != []
  {
    match Decoded58(addr)
    case None => None
    case Some(raw) => Unsealed(hash, raw)
  }

  /** The tag in front of the payload, and the data after it. */
  function TagAndData(payload: seq<byte>): Option<(nat, seq<byte>)>
  {
    match Read(TAG_BITS, payload)
    case Stopped(v, k) => (EncodedOfRead(TAG_BITS, 0, payload); Some((v, payload[k..])))
    case RanOut(v, k) => Some((v, []))
    case Overflow => None
    case NonCanonical => None
  }

  function DecodedAddr(hash: Hash, addr: string): Option<(nat, seq<byte>)>
  {
    match Payload(hash, addr)
    case None => None
    case Some(payload) => TagAndData(payload)
  }

  /** `encode_addr`. */
  method EncodeAddr(hash: Hash, tag: nat, data: seq<byte>) returns (addr: string)
    requires tag < 0x1_0000_0000_0000_0000
    ensures addr == EncodedAddr(hash, tag, data)
  {
    var buf := FromVarint(tag);
    buf := buf + data;
    var digest := hash(buf);
    buf := buf + digest[..CHECKSUM];
    addr := Encode(buf);
  }

  /** What a read of the tag, as `toVarint` reports it, makes of the payload. */
  lemma TagRead(payload: seq<byte>, read: int, v: nat)
    requires payload != []
    requires match Read(TAG_BITS, payload)
             case Stopped(w, k) => read == k && v == w
             case RanOut(w, k) => read == k && v == w
             case Overflow => read == -1
             case NonCanonical => read == -2
    ensures if read <= 0 then TagAndData(payload) == None
            else read <= |payload| && TagAndData(payload) == Some((v, payload[read..]))
  {
    RanOutExact(TAG_BITS, 0, payload);
    if Read(TAG_BITS, payload).Stopped? { EncodedOfRead(TAG_BITS, 0, payload); }
    assert payload[|payload|..] == [];
  }

  /** The checks of `decode_addr` on the decoded bytes. */
  method SplitAddr(hash: Hash, raw: seq<byte>) returns (ok: bool, tag: nat, data: seq<byte>)
    ensures var o := Unsealed(hash, raw);
            if o.None? then !ok
            else ok == TagAndData(o.value).Some? && (ok ==> TagAndData(o.value) == Some((tag, data)))
    ensures ok ==> tag < 0x1_0000_0000_0000_0000
  {
    tag, data := 0, [];
    if |raw| <= CHECKSUM {
      return false, 0, [];
    }
    var checksum := raw[|raw| - CHECKSUM..];
    var payload := raw[..|raw| - CHECKSUM];
    if hash(payload)[..CHECKSUM] != checksum {
      return false, 0, [];
    }
    var read, v := ToVarint(TAG_BITS, payload);
    assert v < 0x1_0000_0000_0000_0000 by { TwoTo64(); }
    TagRead(payload, read, v);
    if read <= 0 {
      return false, 0, [];
    }
    return true, v, payload[read..];
  }

  /** `decode_addr`. */
  method DecodeAddr(t: ReverseTables, hash: Hash, addr: string) returns (ok: bool, tag: nat, data: seq<byte>)
    requires t.Valid()
    ensures ok == DecodedAddr(hash, addr).Some?
    ensures ok ==> DecodedAddr(hash, addr) == Some((tag, data))
    ensures ok ==> tag < 0x1_0000_0000_0000_0000
  {
    var r, raw := Decode(t, addr);
    if !r {
      return false, 0, [];
    }
    ok, tag, data := SplitAddr(hash, raw);
  }

  lemma PayloadOfSealed(hash: Hash, payload: seq<byte>)
    requires payload != []
    ensures Payload(hash, Encoded58(Sealed(hash, payload))) == Some(payload)
  {
    var raw := Sealed(hash, payload);
    DecodeOfEncode(raw);
    assert raw[..|raw| - CHECKSUM] == payload;
    assert raw[|raw| - CHECKSUM..] == hash(payload)[..CHECKSUM];
  }

  lemma SealedOfPayload(hash: Hash, addr: string)
    requires Payload(hash, addr).Some?
    ensures Encoded58(Sealed(hash, Payload(hash, addr).value)) == addr
  {
    var raw := Decoded58(addr).value;
    EncodeOfDecode(addr);
    assert raw == raw[..|raw| - CHECKSUM] + raw[|raw| - CHECKSUM..];
  }

  /** Every 64-bit tag and every data survive the trip through an address. */
  lemma DecodeOfEncodeAddr(hash: Hash, tag: nat, data: seq<byte>)
    requires tag < 0x1_0000_0000_0000_0000
    ensures DecodedAddr(hash, EncodedAddr(hash, tag, data)) == Some((tag, data))
  {
    var payload := Encoded(tag) + data;
    PayloadOfSealed(hash, payload);
    TwoTo64();
    ReadOfEncoded(TAG_BITS, 0, tag, data);
    assert payload[|Encoded(tag)|..] == data;
  }

  /** The tag under the checksum ends: some payload byte has its high bit clear. */
  predicate TagTerminated(hash: Hash, addr: string)
  {
    var o := Payload(hash, addr);
    o.Some? && exists i :: 0 <= i < |o.value| && o.value[i] < 0x80
  }

  lemma {:induction false} LastByteClear(v: nat)
    ensures var s := Encoded(v); s[|s| - 1] < 0x80
    decreases v
  {
    if v >= 0x80 { LastByteClear(v / 0x80); }
  }

  lemma StoppedReencodes(hash: Hash, addr: string, payload: seq<byte>, tag: nat, k: nat)
    requires Payload(hash, addr) == Some(payload) && Read(TAG_BITS, payload) == Stopped(tag, k)
    ensures k <= |payload| && payload == Encoded(tag) + payload[k..]
    ensures EncodedAddr(hash, tag, payload[k..]) == addr
    ensures TagTerminated(hash, addr)
  {
    EncodedOfRead(TAG_BITS, 0, payload);
    LastByteClear(tag);
    assert payload == payload[..k] + payload[k..];
    assert payload[k - 1] == Encoded(tag)[k - 1];
    SealedOfPayload(hash, addr);
  }

  lemma RanOutDiffers(hash: Hash, addr: string, payload: seq<byte>, tag: nat)
    requires Payload(hash, addr) == Some(payload)
    requires forall i :: 0 <= i < |payload| ==> payload[i] >= 0x80
    ensures EncodedAddr(hash, tag, []) != addr
  {
    var own := Encoded(tag) + [];
    PayloadOfSealed(hash, own);
    LastByteClear(tag);
    assert own[|own| - 1] < 0x80;
  }

  /** An accepted address is re-encoded to itself exactly when its tag is terminated. */
  lemma EncodeOfDecodeAddr(hash: Hash, addr: string)
    requires DecodedAddr(hash, addr).Some?
    ensures var (tag, data) := DecodedAddr(hash, addr).value;
            && (EncodedAddr(hash, tag, data) == addr <==> TagTerminated(hash, addr))
            && (data != [] ==> TagTerminated(hash, addr))
  {
    var payload := Payload(hash, addr).value;
    match Read(TAG_BITS, payload)
    case Stopped(v, k) =>
      StoppedReencodes(hash, addr, payload, v, k);
    case RanOut(v, k) =>
      RanOutExact(TAG_BITS, 0, payload);
      RanOutDiffers(hash, addr, payload, v);
  }

  /** An unterminated tag: the one-byte payload 0x81 is accepted as tag 1 under every hash, and that tag is
      encoded differently. */
  lemma UnterminatedTag(hash: Hash)
    ensures var addr := Encoded58(Sealed(hash, [0x81]));
            && DecodedAddr(hash, addr) == Some((1, []))
            && EncodedAddr(hash, 1, []) != addr
  {
    PayloadOfSealed(hash, [0x81]);
    PayloadOfSealed(hash, [1]);
    var addr := Encoded58(Sealed(hash, [0x81]));
    assert Read(TAG_BITS, [0x81]) == RanOut(1, 1) by {
      assert [0x81][1..] == [];
      assert ReadAt(TAG_BITS, 7, []) == RanOut(0, 0);
    }
    assert Encoded(1) + [] == [1];
  }

  /** Two accepted addresses with terminated tags and the same contents are the same address. */
  lemma DecodeAddrInjective(hash: Hash, a: string, b: string)
    requires TagTerminated(hash, a) && TagTerminated(hash, b)
    requires DecodedAddr(hash, a).Some? && DecodedAddr(hash, a) == DecodedAddr(hash, b)
    ensures a == b
  {
    EncodeOfDecodeAddr(hash, a);
    EncodeOfDecodeAddr(hash, b);
  }

  // ---------- The bytes of an address ----------

  /** What is encoded is the tag, the data, and the first four bytes of their hash. */
  lemma AddressBytes(hash: Hash, tag: nat, data: seq<byte>)
    ensures var p := Encoded(tag) + data;
            Decoded58(EncodedAddr(hash, tag, data)) == Some(p + hash(p)[..4])
  {
    DecodeOfEncode(Sealed(hash, Encoded(tag) + data));
  }

  /** The four last bytes are the first four of the hash of the others. */
  predicate Checked(hash: Hash, raw: seq<byte>)
  {
    |raw| > 4 && raw[|raw| - 4..] == hash(raw[..|raw| - 4])[..4]
  }

  /** An address is accepted exactly when its text decodes, its last four bytes check, and a 64-bit tag can be read
      from the others; the tag and the bytes after it are what is returned. */
  lemma AcceptExact(hash: Hash, addr: string, tag: nat, data: seq<byte>)
    ensures DecodedAddr(hash, addr) == Some((tag, data))
       <==> (Decoded58(addr).Some? && Checked(hash, Decoded58(addr).value)
             && var p := Decoded58(addr).value[..|Decoded58(addr).value| - 4];
                var o := Read(64, p);
                (o.Stopped? || o.RanOut?) && o.value == tag && o.len <= |p| && data == p[o.len..])
  {
    if Payload(hash, addr).Some? { TagExact(Payload(hash, addr).value, tag, data); }
  }

  lemma TagExact(p: seq<byte>, tag: nat, data: seq<byte>)
    ensures TagAndData(p) == Some((tag, data))
       <==> var o := Read(64, p);
            (o.Stopped? || o.RanOut?) && o.value == tag && o.len <= |p| && data == p[o.len..]
  {
    RanOutExact(64, 0, p);
    if Read(64, p).Stopped? { EncodedOfRead(64, 0, p); }
    assert p[|p|..] == [];
  }

  /** The length of an address: for a tag of `t` bytes, `t` and the data and four more, in blocks. */
  lemma AddressLength(hash: Hash, tag: nat, data: seq<byte>)
    ensures var n := |Encoded(tag)| + |data| + 4;
            |EncodedAddr(hash, tag, data)| == n / 8 * 11 + ENCODED_SIZES[n % 8]
  {
    EncodedLength(Sealed(hash, Encoded(tag) + data));
  }
}
