/** The chunked-body reader of `getHTTPResponse` in external/miniupnpc/miniwget.c: a state machine that is fed
    fragments cut anywhere. */
module HttpChunked {
  import opened HttpHeaders

  const UINT: nat := 0x1_0000_0000
  const INT_LIMIT: nat := 0x8000_0000
  const SIZE_DIGITS: nat := 31

  /** `TooLarge` is a chunk size that does not fit a signed `int`: the copy would leave the buffer, and the model
      stops there. */
  datatype Status = Reading | Ended | TooLarge

  /** `size` is what is left of the current chunk, `digits` the size digits read so far. */
  datatype Reader = Reader(size: nat, digits: string, out: string, status: Status)

  const START: Reader := Reader(0, "", "", Reading)

  predicate IsHex(c: char)
  {
    '0' <= c <= '9' || 'a' <= c <= 'f' || 'A' <= c <= 'F'
  }

  /** The value the source computes for a digit; for letters, after or-ing in the lower-case bit. */
  function HexDigit(c: char): (d: nat)
    requires IsHex(c)
    ensures d < 16
  {
    if c <= '9' then c as int - '0' as int
    else if c <= 'F' then c as int + 32 - 'a' as int + 10
    else c as int - 'a' as int + 10
  }

  predicate AllHex(s: string)
  {
    forall i :: 0 <= i < |s| ==> IsHex(s[i])
  }

  /** The number a digit string denotes. */
  function HexValue(s: string): nat
    requires AllHex(s)
  {
    if s == [] then 0 else HexValue(s[..|s| - 1]) * 16 + HexDigit(s[|s| - 1])
  }

  /** What the source computes in an `unsigned int`. */
  function HexWord(s: string): nat
    requires AllHex(s)
  {
    if s == [] then 0 else (HexWord(s[..|s| - 1]) * 16 + HexDigit(s[|s| - 1])) % UINT
  }

  /** The word computed is the number modulo 2^32, for every digit string. */
  lemma {:induction false} HexWordWraps(s: string)
    requires AllHex(s)
    ensures HexWord(s) == HexValue(s) % 0x1_0000_0000
  {
    if s != [] {
      HexWordWraps(s[..|s| - 1]);
      WrapStep(HexValue(s[..|s| - 1]), HexDigit(s[|s| - 1]));
    }
  }

  lemma WrapStep(n: nat, d: nat)
    ensures (n % 0x1_0000_0000 * 16 + d) % 0x1_0000_0000 == (n * 16 + d) % 0x1_0000_0000
  {
    var q := n / 0x1_0000_0000;
    assert n * 16 + d == 0x1_0000_0000 * (q * 16) + (n % 0x1_0000_0000 * 16 + d);
  }

  /** The hexadecimal digits in order of value, in either case. */
  const LOWER: string := "0123456789abcdef"
  const UPPER: string := "0123456789ABCDEF"

  /** `s` is a hexadecimal numeral for `n`: the last digit is that of `n % 16`, in either case, and the others are
      one for `n / 16`. Leading zeros are allowed. */
  predicate Denotes(s: string, n: nat)
  {
    if s == [] then n == 0
    else
      var c := s[|s| - 1];
      (c == LOWER[n % 16] || c == UPPER[n % 16]) && Denotes(s[..|s| - 1], n / 16)
  }

  lemma HexDigitsExact(c: char)
    ensures IsHex(c) <==> c in "0123456789abcdef" || c in "0123456789ABCDEF"
  {
    if IsHex(c) {
      var d := HexDigit(c);
      assert c == LOWER[d] || c == UPPER[d] by { DigitDenotes(c, d); }
    }
  }

  lemma DigitDenotes(c: char, d: nat)
    requires d < 16
    ensures c == LOWER[d] || c == UPPER[d] <==> IsHex(c) && HexDigit(c) == d
  {
    assert LOWER[d] == if d < 10 then ('0' as int + d) as char else ('a' as int + d - 10) as char;
    assert UPPER[d] == if d < 10 then ('0' as int + d) as char else ('A' as int + d - 10) as char;
  }

  /** The reader's digits and their value are exactly those of hexadecimal numerals. */
  lemma {:induction false} ValueDenotes(s: string, n: nat)
    ensures Denotes(s, n) <==> AllHex(s) && HexValue(s) == n
  {
    if s != [] {
      var front, c := s[..|s| - 1], s[|s| - 1];
      ValueDenotes(front, n / 16);
      DigitDenotes(c, n % 16);
      assert AllHex(s) <==> AllHex(front) && IsHex(c);
      if AllHex(s) && HexValue(s) == n { assert HexDigit(c) == n % 16; }
    }
  }

  /** The numeral for `n` as a sender writes it. */
  function Written(n: nat, digits: string): string
    requires |digits| == 16
  {
    if n < 16 then [digits[n]] else Written(n / 16, digits) + [digits[n % 16]]
  }

  lemma {:induction false} WrittenDenotes(n: nat, digits: string, zeros: nat)
    requires digits == LOWER || digits == UPPER
    ensures Denotes(seq(zeros, _ => '0') + Written(n, digits), n)
    decreases n
  {
    var pad := seq(zeros, _ => '0');
    var s := pad + Written(n, digits);
    if n < 16 {
      ZerosDenote(zeros);
      assert s[..|s| - 1] == pad;
    } else {
      WrittenDenotes(n / 16, digits, zeros);
      assert s[..|s| - 1] == pad + Written(n / 16, digits);
    }
  }

  lemma {:induction false} ZerosDenote(zeros: nat)
    ensures Denotes(seq(zeros, _ => '0'), 0)
  {
    if zeros > 0 {
      ZerosDenote(zeros - 1);
      var s := seq(zeros, _ => '0');
      assert s[..|s| - 1] == seq(zeros - 1, _ => '0');
    }
  }

  function SkipOne(c: char, s: string): (t: string)
    ensures |t| <= |s|
  {
    if s != [] && s[0] == c then s[1..] else s
  }

  /** Moves size digits from the buffer to `digits`, as long as there is room for them. */
  function TakeHex(digits: string, s: string): (r: (string, string))
    ensures |r.0| + |r.1| == |digits| + |s|
    ensures |digits| <= |r.0|
    ensures |digits| <= SIZE_DIGITS ==> |r.0| <= SIZE_DIGITS
    ensures |r.0| > |digits| || r.1 == s
    decreases s
  {
    if |digits| < SIZE_DIGITS && s != [] && IsHex(s[0]) then TakeHex(digits + [s[0]], s[1..]) else (digits, s)
  }

  /** Discards the rest of the line: a chunk extension. */
  function SkipExtension(s: string): (t: string)
    ensures |t| <= |s|
    ensures t != [] ==> t[0] == CR || t[0] == LF
    ensures s != [] && s[0] != CR && s[0] != LF ==> |t| < |s|
  {
    if s != [] && s[0] != CR && s[0] != LF then SkipExtension(s[1..]) else s
  }

  /** An `unsigned int` cast to `int`. */
  function Signed(n: nat): int
  {
    if n < INT_LIMIT then n else n - UINT
  }

  /** The number of bytes the source asks `memcpy` for, with `left` bytes left in the buffer: the smaller of the
      two, compared as signed numbers. */
  function BytesToCopy(size: nat, left: nat): nat
  {
    if Signed(size) < left then size else left
  }

  /** Copies what the buffer holds of the current chunk. */
  function Copy(r: Reader, buf: string): (Reader, string)
  {
    if r.size >= INT_LIMIT then (r.(status := TooLarge), buf)
    else
      var n := if r.size < |buf| then r.size else |buf|;
      (r.(size := r.size - n, out := r.out + buf[..n]), buf[n..])
  }

  /** The copy stays inside the buffer exactly when the size fits a signed `int`; then it takes what there is, up
      to the size. */
  lemma CopyExact(r: Reader, buf: string)
    requires 0 < r.size < 0x1_0000_0000 && |buf| <= 2048 && r.status == Reading
    ensures BytesToCopy(r.size, |buf|) <= |buf| <==> r.size < 0x8000_0000
    ensures Copy(r, buf).0.status == TooLarge <==> BytesToCopy(r.size, |buf|) > |buf|
    ensures r.size < 0x8000_0000 ==>
              var n := BytesToCopy(r.size, |buf|);
              Copy(r, buf) == (r.(size := r.size - n, out := r.out + buf[..n]), buf[n..])
  {
  }

  /** Skips a line end left over from the previous chunk, before the first size digit. */
  function Lead(r: Reader, buf: string): (s: string)
    ensures |s| <= |buf|
  {
    if r.digits == [] then SkipOne(LF, SkipOne(CR, buf)) else buf
  }

  /** Reads as much of a chunk-size line as the buffer holds: the reader, the rest, and whether the line ended. */
  function SizeLine(r: Reader, s: string): (Reader, string, bool)
  {
    var (digits, s1) := TakeHex(r.digits, s);
    var s2 := SkipOne(CR, SkipExtension(s1));
    if s2 != [] && s2[0] == LF then (r.(digits := digits), s2[1..], true) else (r.(digits := digits), s2, false)
  }

  predicate Valid(r: Reader)
  {
    |r.digits| <= SIZE_DIGITS && AllHex(r.digits)
  }

  lemma {:induction false} TakeHexValid(digits: string, s: string)
    requires |digits| <= SIZE_DIGITS && AllHex(digits)
    ensures AllHex(TakeHex(digits, s).0)
    decreases s
  {
    if |digits| < SIZE_DIGITS && s != [] && IsHex(s[0]) { TakeHexValid(digits + [s[0]], s[1..]); }
  }

  lemma SizeLineValid(r: Reader, s: string)
    requires Valid(r)
    ensures Valid(SizeLine(r, s).0)
  {
    TakeHexValid(r.digits, s);
  }

  /** One round of the inner loop. */
  function Round(r: Reader, buf: string): (Reader, string)
    requires Valid(r)
  {
    if r.size != 0 then Copy(r, buf)
    else
      var (r1, s, done) := SizeLine(r, Lead(r, buf));
      SizeLineValid(r, Lead(r, buf));
      if !done then (r1, s)
      else
        var r2 := Reader(HexWord(r1.digits), "", r1.out, Reading);
        if r2.size == 0 then (r2.(status := Ended), s) else Copy(r2, s)
  }

  lemma RoundValid(r: Reader, buf: string)
    requires Valid(r)
    ensures Valid(Round(r, buf).0)
  {
    if r.size == 0 { SizeLineValid(r, Lead(r, buf)); }
  }

  lemma SizeLineProgress(r: Reader, buf: string)
    requires Valid(r) && buf != []
    ensures |SizeLine(r, Lead(r, buf)).1| < |buf|
  {
    var s0 := Lead(r, buf);
    var (digits, s1) := TakeHex(r.digits, s0);
    var s2 := SkipExtension(s1);
    assert |s2| <= |s1| <= |s0| <= |buf|;
  }

  /** Every round takes at least one byte from the buffer, for every input. */
  lemma RoundProgress(r: Reader, buf: string)
    requires Valid(r) && r.status == Reading && buf != []
    ensures |Round(r, buf).1| <= |buf|
    ensures Round(r, buf).0.status != TooLarge ==> |Round(r, buf).1| < |buf|
  {
    if r.size == 0 { SizeLineProgress(r, buf); }
  }

  /** The inner loop on one buffer. */
  function Feed(r: Reader, buf: string): (r': Reader)
    requires Valid(r)
    ensures Valid(r')
    decreases |buf|
  {
    if buf == [] || r.status != Reading then r
    else
      RoundProgress(r, buf);
      RoundValid(r, buf);
      var (r1, rest) := Round(r, buf);
      if r1.status == TooLarge then r1 else Feed(r1, rest)
  }

  /** The outer loop: fragment after fragment until the reader has ended. */
  function FeedAll(r: Reader, fragments: seq<string>): (r': Reader)
    requires Valid(r)
    ensures Valid(r')
    decreases fragments
  {
    if fragments == [] || r.status != Reading then r else FeedAll(Feed(r, fragments[0]), fragments[1..])
  }
}
