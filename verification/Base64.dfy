/** `Base64::decode` of src/common/str.cpp, against the encoding of section 4 of RFC 4648. */
module Base64 {
  import opened LetterRuns
  import opened Numerals
  import opened Octets

  const CHARS: string := "ABCDEFGHIJKLMNOPQRSTUVWXYZ" + "abcdefghijklmnopqrstuvwxyz" + "0123456789" + "+/"

  type sextet = x: nat | x < 64

  /** `Base64::valid`, in the classic locale. */
  predicate IsValid(c: char)
  {
    'A' <= c <= 'Z' || 'a' <= c <= 'z' || '0' <= c <= '9' || c == '+' || c == '/'
  }

  /** `chars.find(c)` cast to `unsigned char`: the index, or 255 when there is none. */
  function Find(c: char): (n: nat)
    ensures n < 64 <==> IsValid(c)
    ensures n <= 255
  {
    if 'A' <= c <= 'Z' then c as int - 'A' as int
    else if 'a' <= c <= 'z' then c as int - 'a' as int + 26
    else if '0' <= c <= '9' then c as int - '0' as int + 52
    else if c == '+' then 62
    else if c == '/' then 63
    else 255
  }

  lemma Runs()
    ensures Run("ABCDEFGHIJKLMNOPQRSTUVWXYZ", 'A') && Run("abcdefghijklmnopqrstuvwxyz", 'a')
    ensures Run("0123456789", '0')
  {
  }

  lemma CharsAt(n: nat)
    requires n < 64
    ensures |CHARS| == 64 && Find(CHARS[n]) == n
  {
    Runs();
    if n < 26 { assert CHARS[n] == "ABCDEFGHIJKLMNOPQRSTUVWXYZ"[n]; }
    else if n < 52 { assert CHARS[n] == "abcdefghijklmnopqrstuvwxyz"[n - 26]; }
    else if n < 62 { assert CHARS[n] == "0123456789"[n - 52]; }
    else { assert CHARS[n] == "+/"[n - 62]; }
  }

  // ---------- Meaning ----------

  /** The bytes of four table indices; shifts and masks as quotients and remainders of unsigned chars. */
  function First(a: nat, b: nat): byte
  {
    (a * 4 + b / 16 % 4) % 256
  }

  function Second(b: nat, c: nat): byte
  {
    (b % 16 * 16 + c / 4 % 16) % 256
  }

  function Third(c: nat, d: nat): byte
  {
    (c % 4 * 64 + d) % 256
  }

  /** What the decoder makes of the leading valid symbols; a lone one is dropped. */
  function Bytes(x: seq<sextet>): seq<byte>
  {
    if |x| >= 4 then [First(x[0], x[1]), Second(x[1], x[2]), Third(x[2], x[3])] + Bytes(x[4..])
    else if |x| == 3 then [First(x[0], x[1]), Second(x[1], x[2])]
    else if |x| == 2 then [First(x[0], x[1])]
    else []
  }

  function ValidPrefix(s: string): (x: seq<sextet>)
  {
    if s != [] && IsValid(s[0]) then [Find(s[0])] + ValidPrefix(s[1..]) else []
  }

  function Decoded(s: string): seq<byte>
  {
    Bytes(ValidPrefix(s))
  }

  /** The four groups of six bits of three bytes. */
  function Group0(a: byte): sextet
  {
    a / 4
  }

  function Group1(a: byte, b: byte): sextet
  {
    a % 4 * 16 + b / 16
  }

  function Group2(b: byte, c: byte): sextet
  {
    b % 16 * 4 + c / 64
  }

  function Group3(c: byte): sextet
  {
    c % 64
  }

  /** The encoding: groups of six bits, the last one filled up with zero bits. */
  function Sextets(d: seq<byte>): seq<sextet>
  {
    if |d| >= 3 then [Group0(d[0]), Group1(d[0], d[1]), Group2(d[1], d[2]), Group3(d[2])] + Sextets(d[3..])
    else if |d| == 2 then [Group0(d[0]), Group1(d[0], d[1]), Group2(d[1], 0)]
    else if |d| == 1 then [Group0(d[0]), Group1(d[0], 0)]
    else []
  }

  function Text(x: seq<sextet>): (s: string)
    ensures |s| == |x|
  {
    CharsAt(0);
    seq(|x|, i requires 0 <= i < |x| => CHARS[x[i]])
  }

  /** A symbol sequence that an encoder can have produced: no lone symbol, and no bits beyond the last byte. */
  predicate Canonical(x: seq<sextet>)
  {
    if |x| >= 4 then Canonical(x[4..])
    else if |x| == 3 then x[2] % 4 == 0
    else if |x| == 2 then x[1] % 16 == 0
    else x == []
  }

  // ---------- Round trips ----------

  lemma FirstOfGroups(a: byte, b: byte)
    ensures First(Group0(a), Group1(a, b)) == a
  {
    assert Group1(a, b) / 16 == a % 4;
  }

  lemma SecondOfGroups(a: byte, b: byte, c: byte)
    ensures Second(Group1(a, b), Group2(b, c)) == b
  {
    assert Group1(a, b) % 16 == b / 16;
    assert Group2(b, c) / 4 == b % 16;
  }

  lemma ThirdOfGroups(b: byte, c: byte)
    ensures Third(Group2(b, c), Group3(c)) == c
  {
    assert Group2(b, c) % 4 == c / 64;
  }

  lemma {:induction false} BytesOfSextets(d: seq<byte>)
    ensures Bytes(Sextets(d)) == d
  {
    if |d| >= 3 {
      BytesOfSextets(d[3..]);
      FirstOfGroups(d[0], d[1]);
      SecondOfGroups(d[0], d[1], d[2]);
      ThirdOfGroups(d[1], d[2]);
      assert Sextets(d)[4..] == Sextets(d[3..]);
      assert d == [d[0], d[1], d[2]] + d[3..];
    } else if |d| == 2 {
      FirstOfGroups(d[0], d[1]);
      SecondOfGroups(d[0], d[1], 0);
    } else if |d| == 1 {
      FirstOfGroups(d[0], 0);
    }
  }

  lemma FirstSplits(a: sextet, b: sextet)
    ensures Group0(First(a, b)) == a && First(a, b) % 4 == b / 16
  {
    assert First(a, b) == a * 4 + b / 16;
  }

  lemma SecondSplits(b: sextet, c: sextet)
    ensures Second(b, c) / 16 == b % 16 && Second(b, c) % 16 == c / 4
  {
    assert Second(b, c) == b % 16 * 16 + c / 4;
  }

  lemma ThirdSplits(c: sextet, d: sextet)
    ensures Third(c, d) / 64 == c % 4 && Group3(Third(c, d)) == d
  {
    assert Third(c, d) == c % 4 * 64 + d;
  }

  lemma GroupsOfBytes(a: sextet, b: sextet, c: sextet, d: sextet)
    ensures Group1(First(a, b), Second(b, c)) == b
    ensures Group2(Second(b, c), Third(c, d)) == c
  {
    FirstSplits(a, b);
    SecondSplits(b, c);
    ThirdSplits(c, d);
  }

  /** The last, filled-up group is its own exactly when the filling is zero. */
  lemma LastGroups(a: sextet, b: sextet, c: sextet)
    ensures Group1(First(a, b), 0) == b <==> b % 16 == 0
    ensures Group2(Second(b, c), 0) == c <==> c % 4 == 0
  {
    FirstSplits(a, b);
    SecondSplits(b, c);
  }

  lemma FourSplit(x: seq<sextet>, y: seq<sextet>)
    requires |x| >= 4
    ensures [x[0], x[1], x[2], x[3]] + y == x <==> y == x[4..]
  {
    var z := [x[0], x[1], x[2], x[3]] + y;
    assert z[4..] == y;
    assert x == [x[0], x[1], x[2], x[3]] + x[4..];
  }

  /** Encoding what was decoded gives the symbols back exactly when they are canonical. */
  lemma {:induction false} SextetsOfBytes(x: seq<sextet>)
    ensures Sextets(Bytes(x)) == x <==> Canonical(x)
  {
    if |x| >= 4 {
      SextetsOfBytes(x[4..]);
      GroupsOfBytes(x[0], x[1], x[2], x[3]);
      FirstSplits(x[0], x[1]);
      ThirdSplits(x[2], x[3]);
      assert Bytes(x)[3..] == Bytes(x[4..]);
      FourSplit(x, Sextets(Bytes(x[4..])));
    } else if |x| == 3 {
      GroupsOfBytes(x[0], x[1], x[2], 0);
      FirstSplits(x[0], x[1]);
      LastGroups(x[0], x[1], x[2]);
      assert x == [x[0], x[1], x[2]];
    } else if |x| == 2 {
      FirstSplits(x[0], x[1]);
      LastGroups(x[0], x[1], 0);
      assert x == [x[0], x[1]];
    }
  }

  lemma {:induction false} PrefixOfText(x: seq<sextet>, rest: string)
    requires rest == [] || !IsValid(rest[0])
    ensures ValidPrefix(Text(x) + rest) == x
  {
    if x == [] {
      assert Text(x) + rest == rest;
    } else {
      CharsAt(x[0]);
      PrefixOfText(x[1..], rest);
      assert (Text(x) + rest)[1..] == Text(x[1..]) + rest;
      assert x == [x[0]] + x[1..];
    }
  }

  /** Every byte string comes back from its encoding, with padding, without it, and with anything after it that
      does not start with a symbol. */
  lemma DecodeOfEncode64(d: seq<byte>, rest: string)
    requires rest == [] || !IsValid(rest[0])
    ensures Decoded(Text(Sextets(d)) + rest) == d
  {
    PrefixOfText(Sextets(d), rest);
    BytesOfSextets(d);
  }

  // ---------- The number in the symbols ----------

  /** The table by position. */
  lemma SymbolAt(n: nat)
    requires n < 64
    ensures CHARS[n] as int == if n < 26 then 'A' as int + n
                               else if n < 52 then 'a' as int + (n - 26)
                               else if n < 62 then '0' as int + (n - 52)
                               else if n == 62 then '+' as int
                               else '/' as int
  {
    Runs();
    if n < 26 { assert CHARS[n] == "ABCDEFGHIJKLMNOPQRSTUVWXYZ"[n]; }
    else if n < 52 { assert CHARS[n] == "abcdefghijklmnopqrstuvwxyz"[n - 26]; }
    else if n < 62 { assert CHARS[n] == "0123456789"[n - 52]; }
    else { assert CHARS[n] == "+/"[n - 62]; }
  }

  /** The weight of the bits beyond the last whole byte. */
  function Spare(n: nat): nat
  {
    if n >= 4 then Spare(n - 4) else if n == 3 then 4 else if n == 2 then 16 else if n == 1 then 64 else 1
  }

  lemma FourSymbols()
    ensures Pow(64, 1) == 64 && Pow(64, 2) == 0x1000 && Pow(64, 3) == 0x4_0000 && Pow(64, 4) == 0x100_0000
    ensures Pow(256, 1) == 0x100 && Pow(256, 2) == 0x1_0000 && Pow(256, 3) == 0x100_0000
  {
    assert Pow(64, 2) == 64 * Pow(64, 1);
    assert Pow(64, 3) == 64 * Pow(64, 2);
    assert Pow(256, 2) == 256 * Pow(256, 1);
  }

  lemma {:induction false} Widths(x: seq<sextet>)
    ensures Pow(64, |x|) == Pow(256, |Bytes(x)|) * Spare(|x|)
  {
    FourSymbols();
    if |x| >= 4 {
      var n, k := |x| - 4, |Bytes(x[4..])|;
      Widths(x[4..]);
      PowAdd(64, 4, n);
      PowAdd(256, 3, k);
      assert |Bytes(x)| == 3 + k;
      MulAssoc(Pow(256, 3), Pow(256, k), Spare(n));
    }
  }

  lemma ValueOfFew(b: nat, ds: seq<nat>)
    requires 1 <= |ds| <= 4
    ensures |ds| == 1 ==> Value(b, ds) == ds[0]
    ensures |ds| == 2 ==> Value(b, ds) == ds[0] * b + ds[1]
    ensures |ds| == 3 ==> Value(b, ds) == (ds[0] * b + ds[1]) * b + ds[2]
    ensures |ds| == 4 ==> Value(b, ds) == ((ds[0] * b + ds[1]) * b + ds[2]) * b + ds[3]
  {
    if |ds| > 1 {
      ValueOfFew(b, ds[..|ds| - 1]);
    } else {
      assert ds[..0] == [];
    }
  }

  lemma WholeGroup(a: sextet, b: sextet, c: sextet, d: sextet)
    ensures ((a * 64 + b) * 64 + c) * 64 + d == (First(a, b) * 256 + Second(b, c)) * 256 + Third(c, d)
  {
    FirstSplits(a, b);
    SecondSplits(b, c);
    ThirdSplits(c, d);
  }

  /** The bytes are the number in the symbols, without the bits that do not fill a byte. */
  lemma {:induction false} SameNumber(x: seq<sextet>) returns (low: nat)
    ensures low < Spare(|x|) && Value(64, x) == Value(256, Bytes(x)) * Spare(|x|) + low
  {
    if |x| >= 4 {
      low := SameNumber(x[4..]);
      SameNumberStep(x, low);
    } else {
      low := TailNumber(x);
    }
  }

  lemma TailNumber(x: seq<sextet>) returns (low: nat)
    requires |x| < 4
    ensures low < Spare(|x|) && Value(64, x) == Value(256, Bytes(x)) * Spare(|x|) + low
  {
    if |x| == 0 {
      low := 0;
    } else if |x| == 1 {
      ValueOfFew(64, x);
      low := x[0];
    } else if |x| == 2 {
      low := TwoSymbols(x);
    } else {
      low := ThreeSymbols(x);
    }
  }

  lemma TwoSymbols(x: seq<sextet>) returns (low: nat)
    requires |x| == 2
    ensures low < 16 && Value(64, x) == Value(256, Bytes(x)) * 16 + low
  {
    ValueOfFew(64, x);
    ValueOfFew(256, Bytes(x));
    FirstSplits(x[0], x[1]);
    low := x[1] % 16;
  }

  lemma ThreeSymbols(x: seq<sextet>) returns (low: nat)
    requires |x| == 3
    ensures low < 4 && Value(64, x) == Value(256, Bytes(x)) * 4 + low
  {
    ValueOfFew(64, x);
    ValueOfFew(256, Bytes(x));
    FirstSplits(x[0], x[1]);
    SecondSplits(x[1], x[2]);
    low := x[2] % 4;
  }

  lemma GroupNumber(x: seq<sextet>)
    requires |x| >= 4
    ensures |Bytes(x)| >= 3 && Value(64, x[..4]) == Value(256, Bytes(x)[..3])
    ensures Bytes(x)[3..] == Bytes(x[4..])
  {
    ValueOfFew(64, x[..4]);
    ValueOfFew(256, Bytes(x)[..3]);
    WholeGroup(x[0], x[1], x[2], x[3]);
  }

  lemma SameNumberStep(x: seq<sextet>, low: nat)
    requires |x| >= 4 && Value(64, x[4..]) == Value(256, Bytes(x[4..])) * Spare(|x[4..]|) + low
    ensures Value(64, x) == Value(256, Bytes(x)) * Spare(|x|) + low
  {
    var rest, bytes, m := x[4..], Bytes(x), Spare(|x|);
    GroupNumber(x);
    assert x == x[..4] + rest && bytes == bytes[..3] + bytes[3..];
    ValueAppend(64, x[..4], rest);
    ValueAppend(256, bytes[..3], bytes[3..]);
    Widths(rest);
    Combine(Value(64, x[..4]), Pow(256, |bytes[3..]|), m, Value(256, bytes[3..]), low);
  }

  lemma Combine(n: nat, w: nat, m: nat, r: nat, low: nat)
    ensures n * (w * m) + (r * m + low) == (n * w + r) * m + low
  {
    MulAssoc(n, w, m);
    Distribute(n * w, r, m);
  }

  // ---------- The code ----------

  /** Four looked-up symbols to three bytes. */
  method Flush(quad: array<nat>) returns (three: seq<byte>)
    requires quad.Length == 4
    ensures three == [First(quad[0], quad[1]), Second(quad[1], quad[2]), Third(quad[2], quad[3])]
  {
    var b0 := (quad[0] * 4 + quad[1] / 16 % 4) % 256;
    var b1 := (quad[1] % 16 * 16 + quad[2] / 4 % 16) % 256;
    var b2 := (quad[2] % 4 * 64 + quad[3]) % 256;
    three := [b0, b1, b2];
  }

  /** `held` is in the buffer, `ret` is done, and `s` is still to be read. */
  ghost predicate OnTheWay(encoded: string, ret: seq<byte>, held: seq<sextet>, s: string)
  {
    ret + Bytes(held + ValidPrefix(s)) == Decoded(encoded)
  }

  lemma TakeSymbol(encoded: string, ret: seq<byte>, held: seq<sextet>, s: string)
    requires OnTheWay(encoded, ret, held, s) && s != [] && IsValid(s[0])
    ensures OnTheWay(encoded, ret, held + [Find(s[0])], s[1..])
  {
    assert held + ([Find(s[0])] + ValidPrefix(s[1..])) == (held + [Find(s[0])]) + ValidPrefix(s[1..]);
  }

  lemma FlushFour(encoded: string, ret: seq<byte>, held: seq<sextet>, s: string)
    requires OnTheWay(encoded, ret, held, s) && |held| == 4
    ensures OnTheWay(encoded, ret + [First(held[0], held[1]), Second(held[1], held[2]), Third(held[2], held[3])], [], s)
  {
    var x, more := held + ValidPrefix(s), ValidPrefix(s);
    var three := [First(held[0], held[1]), Second(held[1], held[2]), Third(held[2], held[3])];
    assert x[4..] == more && x[0] == held[0] && x[1] == held[1] && x[2] == held[2] && x[3] == held[3];
    assert Bytes(x) == three + Bytes(more);
    assert ret + (three + Bytes(more)) == (ret + three) + Bytes(more);
    assert [] + more == more;
  }

  /** `Base64::decode`. The buffer holds table indices; the source stores the symbols first and looks all four
      up when the buffer is full or the input ends, where the empty places become 255. */
  method Decode(encoded: string) returns (ret: seq<byte>)
    ensures ret == Decoded(encoded)
  {
    ret := [];
    var quad := new nat[4](_ => 255);
    var i, pos := 0, 0;
    ghost var held: seq<sextet> := [];
    assert encoded[0..] == encoded && [] + ValidPrefix(encoded) == ValidPrefix(encoded);
    assert [] + Decoded(encoded) == Decoded(encoded);
    while pos < |encoded| && encoded[pos] != '=' && IsValid(encoded[pos])
      invariant 0 <= i < 4 && 0 <= pos <= |encoded| && quad[..i] == held
      invariant OnTheWay(encoded, ret, held, encoded[pos..])
    {
      TakeSymbol(encoded, ret, held, encoded[pos..]);
      assert encoded[pos..][1..] == encoded[pos + 1..];
      quad[i] := Find(encoded[pos]);
      held := held + [Find(encoded[pos])];
      assert quad[..i + 1] == held;
      i := i + 1;
      pos := pos + 1;
      if i == 4 {
        FlushFour(encoded, ret, held, encoded[pos..]);
        var three := Flush(quad);
        ret := ret + three;
        held := [];
        i := 0;
      }
    }
    assert pos < |encoded| ==> encoded[pos..][0] == encoded[pos];
    assert held + [] == held;
    if i > 0 {
      var tail := FlushPartial(quad, i, held);
      ret := ret + tail;
    }
  }

  /** The partial group at the end: the empty places are filled, and one byte less than symbols is kept. */
  method FlushPartial(quad: array<nat>, i: nat, ghost held: seq<sextet>) returns (tail: seq<byte>)
    requires quad.Length == 4 && 1 <= i < 4 && quad[..i] == held
    modifies quad
    ensures tail == Bytes(held)
  {
    for j := i to 4
      invariant quad[..i] == held
    {
      quad[j] := 255;
    }
    var three := Flush(quad);
    tail := three[..i - 1];
    assert quad[0] == held[0] && (i > 1 ==> quad[1] == held[1]) && (i > 2 ==> quad[2] == held[2]);
  }
}
