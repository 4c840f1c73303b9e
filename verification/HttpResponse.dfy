/** `getHTTPResponse` of external/miniupnpc/miniwget.c over an arbitrary list of received fragments. What the
    header lines say is an arbitrary function of everything received when the end of the headers is found. */
module HttpResponse {
  import opened HttpHeaders
  import opened HttpChunked
  import opened HttpChunkedProofs

  /** `contentLength` is -1 when the header is absent. */
  datatype Headers = Headers(chunked: bool, contentLength: int)

  /** What the header lines are taken to say, given all that has been received and the end of the headers. An
      empty last `Content-Length` makes the source read on into the body, so the block alone does not decide. */
  type HeaderParser = (string, nat) -> Headers

  /** The header block settles what is read from it, whatever follows. */
  ghost predicate Settled(parser: HeaderParser, block: string, h: Headers)
  {
    forall more :: parser(block + more, |block|) == h
  }

  /** What `receivedata` can deliver into its buffer of 2048 bytes, call by call, before the connection ends. */
  predicate Received(fragments: seq<string>)
  {
    forall i :: 0 <= i < |fragments| ==> 1 <= |fragments[i]| <= 2048
  }

  /** The fragments up to the first empty one, at which the source stops. */
  function Delivered(fragments: seq<string>): seq<string>
  {
    if fragments == [] || fragments[0] == "" then [] else [fragments[0]] + Delivered(fragments[1..])
  }

  lemma {:induction false} DeliveredAll(fragments: seq<string>)
    requires Received(fragments)
    ensures Delivered(fragments) == fragments
  {
    if fragments != [] {
      assert |fragments[0]| >= 1;
      DeliveredAll(fragments[1..]);
    }
  }

  // ---------- Meaning ----------

  /** The chunked branch: stops at the zero chunk, or once a given content length is reached. */
  function ChunkLoop(length: int, r: Reader, fragments: seq<string>): Reader
    requires Valid(r)
    decreases fragments
  {
    if fragments == [] || r.status != Reading then r
    else
      var r1 := Feed(r, fragments[0]);
      if length > 0 && |r1.out| >= length then r1 else ChunkLoop(length, r1, fragments[1..])
  }

  /** How much of a fragment the plain branch keeps. */
  function Kept(length: int, out: string, fragment: string): (s: string)
    ensures s <= fragment
  {
    if length > 0 && |out| + |fragment| > length && |out| <= length then fragment[..length - |out|] else fragment
  }

  function PlainLoop(length: int, out: string, fragments: seq<string>): string
    decreases fragments
  {
    if fragments == [] then out
    else
      var out1 := out + Kept(length, out, fragments[0]);
      if length > 0 && |out1| >= length then out1 else PlainLoop(length, out1, fragments[1..])
  }

  function BodyOf(h: Headers, fragments: seq<string>): string
  {
    if h.chunked then ChunkLoop(h.contentLength, START, fragments).out
    else PlainLoop(h.contentLength, "", fragments)
  }

  /** The whole response when `seen` holds what has arrived of the headers. */
  function Respond(parser: HeaderParser, seen: string, fragments: seq<string>): string
    decreases fragments
  {
    if fragments == [] then ""
    else
      var b := seen + fragments[0];
      var e := ScanFrom(b, 0);
      if e == 0 then Respond(parser, b, fragments[1..])
      else BodyOf(parser(b, e), [b[e..]] + fragments[1..])
  }

  /** What is left after the headers is shorter than the fragment that completed them, so it fits its buffer. */
  lemma LeftoverFits(seen: string, fragment: string)
    requires ScanFrom(seen, 0) == 0 && ScanFrom(seen + fragment, 0) > 0
    ensures |(seen + fragment)[ScanFrom(seen + fragment, 0)..]| < |fragment|
  {
    ScanExtends(seen, fragment, 0);
  }

  /** The body reaches the body branch unchanged, however headers and body were cut. */
  lemma {:induction false} HeadersFound(parser: HeaderParser, h: Headers, seen: string, fragments: seq<string>,
                                        block: string, body: string) returns (rest: seq<string>)
    requires Settled(parser, block, h)
    requires seen + Concat(fragments) == block + body
    requires ScanFrom(seen, 0) == 0 && ScanFrom(block + body, 0) == |block| > 0
    ensures Concat(rest) == body
    ensures Respond(parser, seen, fragments) == BodyOf(h, rest)
    decreases fragments
  {
    assert fragments == [] ==> seen + Concat(fragments) == seen;
    if fragments == [] {
      assert false;
    } else {
      var b, more := seen + fragments[0], Concat(fragments[1..]);
      assert b + more == seen + Concat(fragments);
      ScanExtends(b, more, 0);
      var e := ScanFrom(b, 0);
      if e == 0 {
        rest := HeadersFound(parser, h, b, fragments[1..], block, body);
      } else {
        rest := [b[e..]] + fragments[1..];
        assert b[..e] == (b + more)[..e] && (b + more)[..e] == block;
        assert b == block + b[e..];
        assert b[e..] + more == (b + more)[e..] && (b + more)[e..] == body;
      }
    }
  }

  lemma StandsBound(r: Reader, text: string, cs: seq<Chunk>, trailer: string, out: string)
    requires Stands(r, text, cs, trailer, out)
    ensures r.out <= out && text != []
  {
  }

  lemma {:induction false} ChunkLoopReads(length: int, r: Reader, fragments: seq<string>, cs: seq<Chunk>,
                                          trailer: string, out: string)
    requires Stands(r, Concat(fragments), cs, trailer, out) && (length <= 0 || length >= |out|)
    ensures ChunkLoop(length, r, fragments).out == out
    decreases fragments
  {
    StandsBound(r, Concat(fragments), cs, trailer, out);
    var more := Concat(fragments[1..]);
    var cs' := FeedStands(r, fragments[0], more, cs, trailer, out);
    var r1 := Feed(r, fragments[0]);
    if r1.status == Reading {
      StandsBound(r1, more, cs', trailer, out);
      if !(length > 0 && |r1.out| >= length) { ChunkLoopReads(length, r1, fragments[1..], cs', trailer, out); }
    }
  }

  /** One character of input adds at most one of output. */
  lemma FeedOne(r: Reader, c: char)
    requires Valid(r) && r.status == Reading
    ensures |Feed(r, [c]).out| <= |r.out| + 1
  {
    RoundProgress(r, [c]);
    RoundValid(r, [c]);
    RoundAdds(r, [c]);
  }

  lemma RoundAdds(r: Reader, buf: string)
    requires Valid(r) && r.status == Reading && buf != []
    ensures |Round(r, buf).0.out| <= |r.out| + |buf|
  {
    if r.size == 0 { SizeLineProgress(r, buf); }
  }

  function Singles(s: string): (fragments: seq<string>)
    ensures Concat(fragments) == s
  {
    if s == [] then [] else [[s[0]]] + Singles(s[1..])
  }

  /** Fed character by character, a content length below the true length stops the reader early. */
  lemma {:induction false} ChunkLoopStops(length: int, r: Reader, text: string, cs: seq<Chunk>, trailer: string,
                                          out: string)
    requires Stands(r, text, cs, trailer, out) && |r.out| < length < |out|
    ensures |ChunkLoop(length, r, Singles(text)).out| == length
    decreases text
  {
    StandsBound(r, text, cs, trailer, out);
    var c, more := text[0], text[1..];
    assert [c] + more == text;
    var cs' := FeedStands(r, [c], more, cs, trailer, out);
    FeedOne(r, c);
    var r1 := Feed(r, [c]);
    var fragments := Singles(text);
    assert fragments[0] == [c] && fragments[1..] == Singles(more);
    if |r1.out| < length { ChunkLoopStops(length, r1, more, cs', trailer, out); }
  }

  lemma BodyReached(parser: HeaderParser, h: Headers, lines: seq<HeaderLine>, body: string, fragments: seq<string>)
      returns (rest: seq<string>)
    requires Lines(lines) && Settled(parser, HeaderText(lines), h) && Concat(fragments) == HeaderText(lines) + body
    ensures Concat(rest) == body && Respond(parser, "", fragments) == BodyOf(h, rest)
  {
    ScanFindsBlock(lines, LastEnd(lines), body);
    BlockLength(lines, LastEnd(lines));
    assert "" + Concat(fragments) == Concat(fragments);
    rest := HeadersFound(parser, h, "", fragments, HeaderText(lines), body);
  }

  /** A chunked response is read to its data, however it was cut, when no content length is given or none
      shorter than the data. */
  lemma ChunkedResponse(parser: HeaderParser, h: Headers, lines: seq<HeaderLine>, cs: seq<Chunk>, trailer: string,
                        fragments: seq<string>)
    requires Lines(lines) && Settled(parser, HeaderText(lines), h) && h.chunked && Chunks(cs)
    requires h.contentLength <= 0 || h.contentLength >= |Payload(cs)|
    requires Concat(fragments) == HeaderText(lines) + BodyText(cs, trailer)
    ensures Respond(parser, "", fragments) == Payload(cs)
  {
    var rest := BodyReached(parser, h, lines, BodyText(cs, trailer), fragments);
    StartStands(cs, trailer);
    ChunkLoopReads(h.contentLength, START, rest, cs, trailer, Payload(cs));
  }

  lemma OneMore(seen: string, block: string, body: string)
    requires seen <= block && |seen| < |block|
    ensures var text := block[|seen|..] + body;
            var b := seen + [text[0]];
            b <= block && text[1..] == block[|b|..] + body && b + text[1..] == block + body
  {
  }

  /** Received character by character, the headers are complete exactly with their last character. */
  lemma {:induction false} HeadersOneByOne(parser: HeaderParser, h: Headers, seen: string, block: string, body: string)
    requires Settled(parser, block, h) && seen <= block && |seen| < |block|
    requires ScanFrom(block + body, 0) == |block|
    ensures Respond(parser, seen, Singles(block[|seen|..] + body)) == BodyOf(h, [""] + Singles(body))
    decreases |block| - |seen|
  {
    var text := block[|seen|..] + body;
    var fragments, b, more := Singles(text), seen + [text[0]], text[1..];
    assert fragments[0] == [text[0]] && fragments[1..] == Singles(more);
    OneMore(seen, block, body);
    assert ScanFrom(b, 0) == if |b| == |block| then |b| else 0 by { ScanExtends(b, more, 0); }
    if |b| == |block| {
      assert b == block && block + "" == block && b[|b|..] == "" && more == body;
    } else {
      HeadersOneByOne(parser, h, b, block, body);
    }
  }

  lemma {:induction false} SinglesReceived(s: string)
    ensures Received(Singles(s))
  {
    if s != [] { SinglesReceived(s[1..]); }
  }

  /** A cut that goes wrong when the content length is shorter than the data: one character at a time. */
  lemma ShortLengthStops(parser: HeaderParser, h: Headers, lines: seq<HeaderLine>, cs: seq<Chunk>, trailer: string)
    requires Lines(lines) && Settled(parser, HeaderText(lines), h) && h.chunked && Chunks(cs)
    requires 0 < h.contentLength < |Payload(cs)|
    ensures var fragments := Singles(HeaderText(lines) + BodyText(cs, trailer));
            Received(fragments) && |Respond(parser, "", fragments)| == h.contentLength
  {
    var block, body := HeaderText(lines), BodyText(cs, trailer);
    SinglesReceived(block + body);
    ScanFindsBlock(lines, LastEnd(lines), body);
    BlockLength(lines, LastEnd(lines));
    assert block[0..] == block;
    HeadersOneByOne(parser, h, "", block, body);
    var rest := [""] + Singles(body);
    assert rest[1..] == Singles(body);
    assert Feed(START, "") == START;
    StartStands(cs, trailer);
    ChunkLoopStops(h.contentLength, START, body, cs, trailer, Payload(cs));
  }

  /** Every cut of a chunked response into fragments that fit the receive buffer is read to its data exactly when
      the headers give no content length, or one that is not shorter than the data. */
  lemma ChunkedResponseExact(parser: HeaderParser, h: Headers, lines: seq<HeaderLine>, cs: seq<Chunk>, trailer: string)
    requires Lines(lines) && Settled(parser, HeaderText(lines), h) && h.chunked && Chunks(cs)
    ensures (forall fragments ::
               Received(fragments) && Concat(fragments) == HeaderText(lines) + BodyText(cs, trailer) ==>
                 Respond(parser, "", fragments) == Payload(cs))
       <==> h.contentLength <= 0 || h.contentLength >= |Payload(cs)|
  {
    if h.contentLength <= 0 || h.contentLength >= |Payload(cs)| {
      forall fragments | Received(fragments) && Concat(fragments) == HeaderText(lines) + BodyText(cs, trailer)
        ensures Respond(parser, "", fragments) == Payload(cs)
      {
        ChunkedResponse(parser, h, lines, cs, trailer, fragments);
      }
    } else {
      ShortLengthStops(parser, h, lines, cs, trailer);
      var fragments := Singles(HeaderText(lines) + BodyText(cs, trailer));
      assert Respond(parser, "", fragments) != Payload(cs);
    }
  }

  /** The first `length` characters, or all when there is no length. */
  function Cut(length: int, body: string): string
  {
    if 0 < length < |body| then body[..length] else body
  }

  lemma {:induction false} PlainLoopCuts(length: int, out: string, fragments: seq<string>)
    requires length > 0 ==> |out| < length
    ensures PlainLoop(length, out, fragments) == Cut(length, out + Concat(fragments))
    decreases fragments
  {
    if fragments == [] {
      assert out + [] == out;
    } else {
      var f, more := fragments[0], Concat(fragments[1..]);
      var kept := Kept(length, out, f);
      assert out + (f + more) == (out + f) + more;
      if length > 0 && |out| + |f| >= length {
        assert kept == f[..length - |out|];
        assert (out + f + more)[..length] == out + kept;
        if length == |out + (f + more)| { assert out + kept == out + (f + more); }
      } else {
        PlainLoopCuts(length, out + f, fragments[1..]);
      }
    }
  }

  /** A plain response is its body, cut at the content length when there is one. */
  lemma PlainResponse(parser: HeaderParser, h: Headers, lines: seq<HeaderLine>, body: string, fragments: seq<string>)
    requires Lines(lines) && Settled(parser, HeaderText(lines), h) && !h.chunked
    requires Concat(fragments) == HeaderText(lines) + body
    ensures Respond(parser, "", fragments) == Cut(h.contentLength, body)
  {
    var rest := BodyReached(parser, h, lines, body, fragments);
    PlainLoopCuts(h.contentLength, "", rest);
    assert "" + body == body;
  }

  // ---------- The code ----------

  class ChunkReader {
    var chunksize: nat
    var digits: string
    var content: string
    var status: Status

    constructor ()
      ensures State() == START
    {
      chunksize, digits, content, status := 0, "", "", Reading;
    }

    ghost function State(): Reader
      reads this
    {
      Reader(chunksize, digits, content, status)
    }

    /** The leading line end, the digits, the extension and the line end of a chunk-size line. The cursor
        into the buffer is the part of it still to be read. */
    method ReadSizeLine(buf: string) returns (rest: string, done: bool)
      modifies this
      ensures (State(), rest, done) == SizeLine(old(State()), Lead(old(State()), buf))
    {
      rest := buf;
      if |digits| == 0 {
        if |rest| > 0 && rest[0] == CR { rest := rest[1..]; }
        if |rest| > 0 && rest[0] == LF { rest := rest[1..]; }
      }
      ghost var s := rest;
      while |rest| > 0 && IsHex(rest[0]) && |digits| < SIZE_DIGITS
        invariant State() == old(State()).(digits := digits)
        invariant TakeHex(digits, rest) == TakeHex(old(digits), s)
        decreases |rest|
      {
        digits := digits + [rest[0]];
        rest := rest[1..];
      }
      s := rest;
      while |rest| > 0 && rest[0] != CR && rest[0] != LF
        invariant State() == old(State()).(digits := digits)
        invariant (digits, s) == TakeHex(old(digits), Lead(old(State()), buf))
        invariant SkipExtension(rest) == SkipExtension(s)
        decreases |rest|
      {
        rest := rest[1..];
      }
      if |rest| > 0 && rest[0] == CR { rest := rest[1..]; }
      done := |rest| > 0 && rest[0] == LF;
      if done { rest := rest[1..]; }
    }

    /** The loop that turns the size digits into `chunksize`. */
    method DecodeSize()
      requires Valid(State()) && chunksize == 0
      modifies this
      ensures State() == Reader(HexWord(old(digits)), "", old(content), old(status))
    {
      for j := 0 to |digits|
        invariant State() == old(State()).(size := chunksize) && chunksize == HexWord(digits[..j])
      {
        assert digits[..j + 1][..j] == digits[..j];
        var c := digits[j];
        var d := if '0' <= c <= '9' then c as int - '0' as int
                 else if c <= 'F' then c as int + 32 - 'a' as int + 10
                 else c as int - 'a' as int + 10;
        chunksize := (chunksize * 16 + d) % UINT;
      }
      assert digits[..|digits|] == digits;
      digits := "";
    }

    /** Copies what the buffer holds of the current chunk. */
    method CopyData(buf: string) returns (rest: string)
      modifies this
      ensures (State(), rest) == Copy(old(State()), buf)
    {
      if chunksize >= INT_LIMIT {
        status := TooLarge;
        return buf;
      }
      var bytesToCopy := if chunksize < |buf| then chunksize else |buf|;
      content := content + buf[..bytesToCopy];
      chunksize := chunksize - bytesToCopy;
      return buf[bytesToCopy..];
    }

    /** The body of the inner loop. */
    method RunRound(buf: string) returns (rest: string)
      requires Valid(State()) && status == Reading
      modifies this
      ensures (State(), rest) == Round(old(State()), buf)
    {
      rest := buf;
      if chunksize == 0 {
        SizeLineValid(State(), Lead(State(), buf));
        var done;
        rest, done := ReadSizeLine(rest);
        if !done {
          return;
        }
        DecodeSize();
        if chunksize == 0 {
          status := Ended;
          return;
        }
      }
      rest := CopyData(rest);
    }

    /** The inner loop on one buffer. */
    method FeedBuffer(buf: string)
      requires Valid(State()) && status == Reading
      modifies this
      ensures State() == Feed(old(State()), buf)
    {
      var rest := buf;
      while |rest| > 0 && status == Reading
        invariant Valid(State())
        invariant Feed(State(), rest) == Feed(old(State()), buf)
        decreases |rest|, status == Reading
      {
        RoundProgress(State(), rest);
        RoundValid(State(), rest);
        rest := RunRound(rest);
      }
    }
  }

  /** What the loop has still to deliver. */
  ghost function Outstanding(parser: HeaderParser, found: bool, header: string, h: Headers, r: Reader,
                             content: string, left: seq<string>): string
    requires Valid(r)
  {
    if !found then Respond(parser, header, left)
    else if h.chunked then ChunkLoop(h.contentLength, r, left).out
    else PlainLoop(h.contentLength, content, left)
  }

  /** The body branch on one buffer; `stop` leaves the outer loop. */
  method Absorb(h: Headers, reader: ChunkReader, content: string, buf: string) returns (content': string, stop: bool)
    requires Valid(reader.State()) && reader.status == Reading
    requires h.contentLength > 0 ==> |content| < h.contentLength
    modifies reader
    ensures h.chunked ==> reader.State() == Feed(old(reader.State()), buf) && content' == content
    ensures !h.chunked ==> reader.State() == old(reader.State()) && content' == content + Kept(h.contentLength, content, buf)
    ensures stop <==> (h.chunked && reader.status != Reading)
                      || (h.contentLength > 0
                          && |if h.chunked then reader.content else content'| >= h.contentLength)
  {
    content' := content;
    if h.chunked {
      reader.FeedBuffer(buf);
      stop := reader.status != Reading || (h.contentLength > 0 && |reader.content| >= h.contentLength);
    } else {
      var n := |buf|;
      if h.contentLength > 0 && |content| + |buf| > h.contentLength {
        n := h.contentLength - |content|;
      }
      content' := content + buf[..n];
      stop := h.contentLength > 0 && |content'| >= h.contentLength;
    }
  }

  /** `getHTTPResponse`: the outer loop over the received fragments. */
  method GetResponse(parser: HeaderParser, fragments: seq<string>) returns (content: string)
    ensures content == Respond(parser, "", Delivered(fragments))
    ensures Received(fragments) ==> content == Respond(parser, "", fragments)
  {
    if Received(fragments) { DeliveredAll(fragments); }
    var header, endOfHeaders := "", 0;
    var h := Headers(false, -1);
    var reader := new ChunkReader();
    content := "";
    var k := 0;
    assert fragments[0..] == fragments;
    while k < |fragments| && fragments[k] != ""
      invariant 0 <= k <= |fragments| && Valid(reader.State()) && reader.status == Reading && fresh(reader)
      invariant endOfHeaders == 0 ==> content == "" && reader.State() == START && h == Headers(false, -1)
      invariant !h.chunked && h.contentLength > 0 ==> |content| < h.contentLength
      invariant h.chunked ==> content == ""
      invariant Outstanding(parser, endOfHeaders != 0, header, h, reader.State(), content, Delivered(fragments[k..]))
             == Respond(parser, "", Delivered(fragments))
    {
      var buf := fragments[k];
      assert fragments[k..][1..] == fragments[k + 1..];
      ghost var left := Delivered(fragments[k..]);
      k := k + 1;
      ghost var later := Delivered(fragments[k..]);
      if endOfHeaders == 0 {
        header := header + buf;
        endOfHeaders := EndOfHeaders(header);
        if endOfHeaders == 0 {
          continue;
        }
        h := parser(header, endOfHeaders);
        buf := header[endOfHeaders..];
        left := [buf] + later;
      }
      assert left[0] == buf && left[1..] == later;
      var stop;
      content, stop := Absorb(h, reader, content, buf);
      if stop {
        assert reader.status != Reading ==>
          ChunkLoop(h.contentLength, reader.State(), later) == reader.State();
        return if h.chunked then reader.content else content;
      }
    }
    if h.chunked {
      content := reader.content;
    }
  }
}
