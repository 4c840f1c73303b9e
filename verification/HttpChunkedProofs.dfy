/** For every well-formed chunked body, cut into fragments in any way, the reader delivers the chunk data and
    stops at the zero chunk (section 4.1 of RFC 7230). Chunk extensions may hold hexadecimal digits only after a
    size that fills its buffer. */
module HttpChunkedProofs {
  import opened HttpHeaders
  import opened HttpChunked

  /** A chunk: its size as written, its extension with the semicolon, and its data. */
  datatype Chunk = Chunk(size: string, ext: string, data: string)

  /** An extension, or part of one: it stays on its line. */
  predicate OneLine(ext: string)
  {
    forall i :: 0 <= i < |ext| ==> ext[i] != CR && ext[i] != LF
  }

  /** No character can be taken for a size digit. */
  predicate Inert(ext: string)
  {
    forall i :: 0 <= i < |ext| ==> !IsHex(ext[i])
  }

  /** No cut of the line makes a character of the extension a size digit. */
  predicate Harmless(size: string, ext: string)
  {
    OneLine(ext) && (Inert(ext) || |size| == 31)
  }

  predicate WellFormed(c: Chunk)
  {
    && 1 <= |c.size| <= 31 && Denotes(c.size, |c.data|) && Harmless(c.size, c.ext)
    && |c.data| < 0x8000_0000
  }

  /** Chunks with data, closed by one without. */
  predicate Chunks(cs: seq<Chunk>)
  {
    && cs != []
    && (forall i :: 0 <= i < |cs| ==> WellFormed(cs[i]))
    && (forall i :: 0 <= i < |cs| ==> (cs[i].data == [] <==> i == |cs| - 1))
  }

  /** What follows the first size line; `trailer` is whatever comes after the zero chunk's. */
  function AfterSize(cs: seq<Chunk>, trailer: string): string
    requires cs != []
    decreases cs, 0
  {
    if |cs| == 1 then trailer else cs[0].data + (CRLF + BodyText(cs[1..], trailer))
  }

  /** What follows the digits of the first size. */
  function AfterDigits(cs: seq<Chunk>, trailer: string): string
    requires cs != []
    decreases cs, 1
  {
    cs[0].ext + (CRLF + AfterSize(cs, trailer))
  }

  function BodyText(cs: seq<Chunk>, trailer: string): string
    requires cs != []
    decreases cs, 2
  {
    cs[0].size + AfterDigits(cs, trailer)
  }

  function Payload(cs: seq<Chunk>): string
  {
    if cs == [] then [] else cs[0].data + Payload(cs[1..])
  }

  /** The places a reader can be in a body: `text` is what is still to come, `cs` the chunks whose size has not
      been decoded yet, and `out` the output it will end with. */
  predicate BeforeSize(r: Reader, text: string, cs: seq<Chunk>, trailer: string)
    requires Chunks(cs)
  {
    r.digits == [] && exists lead :: lead in [CRLF, [LF], []] && text == lead + BodyText(cs, trailer)
  }

  predicate InSize(r: Reader, text: string, cs: seq<Chunk>, trailer: string)
    requires Chunks(cs)
  {
    r.digits != [] && r.digits <= cs[0].size && text == cs[0].size[|r.digits|..] + AfterDigits(cs, trailer)
  }

  ghost predicate InExtension(r: Reader, text: string, cs: seq<Chunk>, trailer: string)
    requires Chunks(cs)
  {
    r.digits == cs[0].size && exists ext :: Harmless(r.digits, ext) && text == ext + (CRLF + AfterSize(cs, trailer))
  }

  predicate AtNewline(r: Reader, text: string, cs: seq<Chunk>, trailer: string)
    requires Chunks(cs)
  {
    r.digits == cs[0].size && text == [LF] + AfterSize(cs, trailer)
  }

  predicate InData(r: Reader, text: string, cs: seq<Chunk>, trailer: string, left: string)
    requires Chunks(cs)
  {
    r.digits == [] && 0 < r.size == |left| < INT_LIMIT && text == left + (CRLF + BodyText(cs, trailer))
  }

  ghost predicate OnSizeLine(r: Reader, text: string, cs: seq<Chunk>, trailer: string)
    requires Chunks(cs)
  {
    || BeforeSize(r, text, cs, trailer) || InSize(r, text, cs, trailer)
    || InExtension(r, text, cs, trailer) || AtNewline(r, text, cs, trailer)
  }

  ghost predicate Stands(r: Reader, text: string, cs: seq<Chunk>, trailer: string, out: string)
  {
    && Chunks(cs) && Valid(r) && r.status == Reading
    && (|| (r.size == 0 && out == r.out + Payload(cs)
            && OnSizeLine(r, text, cs, trailer))
        || exists left :: InData(r, text, cs, trailer, left) && out == r.out + left + Payload(cs))
  }

  // ---------- Size digits ----------

  lemma {:induction false} HexPrefixBound(s: string, n: nat)
    requires AllHex(s) && n <= |s|
    ensures HexValue(s[..n]) <= HexValue(s)
    decreases |s|
  {
    if n == |s| {
      assert s[..n] == s;
    } else {
      HexPrefixBound(s[..|s| - 1], n);
      assert s[..|s| - 1][..n] == s[..n];
    }
  }

  /** A size that fits is computed without wrapping. */
  lemma {:induction false} HexWordExact(s: string)
    requires AllHex(s) && HexValue(s) < UINT
    ensures HexWord(s) == HexValue(s)
    decreases |s|
  {
    if s != [] {
      HexPrefixBound(s, |s| - 1);
      HexWordExact(s[..|s| - 1]);
    }
  }

  // ---------- Pieces of a round ----------

  /** After all digits of `size` no other is taken from `tail`. */
  predicate Stops(size: string, tail: string)
  {
    tail != [] && (!IsHex(tail[0]) || |size| == SIZE_DIGITS)
  }

  /** Taking the digits that are there: all of them, or as many as the buffer holds. */
  lemma {:induction false} TakeHexTakes(digits: string, buf: string, more: string, size: string, tail: string)
    requires digits <= size && AllHex(size) && |size| <= SIZE_DIGITS && Stops(size, tail)
    requires buf + more == size[|digits|..] + tail
    ensures var (digits', s) := TakeHex(digits, buf);
            && digits <= digits' <= size
            && s + more == size[|digits'|..] + tail
            && (digits' != size ==> s == [])
    decreases buf
  {
    var t, k := buf + more, |digits|;
    if buf != [] {
      assert t[0] == buf[0];
      if digits == size {
        assert t[0] == tail[0];
      } else {
        assert t[0] == size[k..][0] && size[k..][0] == size[k];
        assert buf[1..] + more == t[1..];
        assert size[k + 1..] + tail == t[1..];
        assert digits + [size[k]] <= size;
        TakeHexTakes(digits + [size[k]], buf[1..], more, size, tail);
      }
    }
  }

  /** Discarding an extension: to its end, or as far as the buffer goes. */
  lemma {:induction false} SkipLineRest(s: string, more: string, ext: string, after: string)
    requires OneLine(ext) && s + more == ext + (CRLF + after)
    ensures if |s| <= |ext| then SkipExtension(s) == [] && more == ext[|s|..] + (CRLF + after)
            else SkipExtension(s) + more == CRLF + after && SkipExtension(s) != []
    decreases s
  {
    var t := s + more;
    if s == [] {
      assert t == more && ext[0..] == ext;
    } else {
      assert t[0] == s[0];
      if ext == [] {
        assert t == CRLF + after;
      } else {
        assert t[0] == ext[0];
        assert s[1..] + more == t[1..] && ext[1..] + (CRLF + after) == t[1..];
        SkipLineRest(s[1..], more, ext[1..], after);
      }
    }
  }

  /** The end of a size line: nothing left in the buffer, or the line end, or part of it. */
  lemma LineTail(s: string, more: string, after: string)
    requires s + more == CRLF + after && s != []
    ensures var s2 := SkipOne(CR, s);
            && s2 + more == [LF] + after
            && (s2 == [] ==> more == [LF] + after)
            && (s2 != [] ==> s2[0] == LF && s2[1..] + more == after)
  {
    var t := s + more;
    assert t[0] == s[0] && t[0] == CR;
    var s2 := s[1..];
    assert s2 + more == t[1..];
    assert t[1..] == [LF] + after;
    if s2 != [] {
      assert (s2 + more)[0] == s2[0];
      assert s2[1..] + more == (s2 + more)[1..];
    }
  }

  /** Reading on from inside an extension or at its end. */
  lemma ExtensionReads(r: Reader, s: string, more: string, ext: string, after: string)
    requires Valid(r) && OneLine(ext) && s + more == ext + (CRLF + after)
    ensures var s2 := SkipOne(CR, SkipExtension(s));
            || (s2 == [] && |s| <= |ext| && more == ext[|s|..] + (CRLF + after))
            || (s2 == [] && more == [LF] + after)
            || (s2 != [] && s2[0] == LF && s2[1..] + more == after)
  {
    SkipLineRest(s, more, ext, after);
    if |s| > |ext| { LineTail(SkipExtension(s), more, after); }
  }

  lemma HarmlessTail(size: string, ext: string, n: nat)
    requires Harmless(size, ext) && n <= |ext|
    ensures Harmless(size, ext[n..])
  {
  }

  /** Skipping the line end before a size: some of it may still be missing. */
  lemma LeadSkips(r: Reader, buf: string, more: string, lead: string, rest: string) returns (lead': string)
    requires r.digits == [] && lead in [CRLF, [LF], []] && rest != [] && IsHex(rest[0])
    requires buf + more == lead + rest && buf != []
    ensures lead' in [CRLF, [LF], []]
    ensures Lead(r, buf) != [] ==> lead' == []
    ensures Lead(r, buf) + more == lead' + rest
  {
    var t := buf + more;
    assert t[0] == buf[0];
    if lead == CRLF {
      assert t[0] == CR && t[1] == LF;
      var b1 := buf[1..];
      assert b1 + more == t[1..] && t[1..] == [LF] + rest;
      if b1 == [] {
        lead' := [LF];
      } else {
        assert b1[0] == t[1];
        assert b1[1..] + more == t[2..] && t[2..] == rest;
        lead' := [];
      }
    } else if lead == [LF] {
      assert t[0] == LF;
      assert buf[1..] + more == t[1..] && t[1..] == rest;
      lead' := [];
    } else {
      assert t == rest;
      lead' := [];
    }
    assert lead' in [CRLF, [LF], []];
  }

  // ---------- Rounds ----------

  /** A buffer that ends inside the data. */
  lemma DataGoesOn(buf: string, more: string, left: string, tail: string)
    requires buf + more == left + tail && |buf| < |left|
    ensures left == buf + left[|buf|..] && more == left[|buf|..] + tail
  {
    var t := buf + more;
    assert t[..|buf|] == buf && t[|buf|..] == more;
    assert (left + tail)[..|buf|] == left[..|buf|] && (left + tail)[|buf|..] == left[|buf|..] + tail;
  }

  /** A buffer that holds the rest of the data. */
  lemma DataEnds(buf: string, more: string, left: string, tail: string)
    requires buf + more == left + tail && |left| <= |buf|
    ensures buf[..|left|] == left && buf[|left|..] + more == tail
  {
    var t := buf + more;
    assert t[..|left|] == left && t[|left|..] == tail;
    assert t[..|left|] == buf[..|left|] && t[|left|..] == buf[|left|..] + more;
  }

  lemma CopyGoesOn(r: Reader, buf: string, more: string, cs: seq<Chunk>, trailer: string, left: string, out: string)
    requires Chunks(cs) && Valid(r) && r.status == Reading && InData(r, buf + more, cs, trailer, left)
    requires out == r.out + left + Payload(cs) && |buf| < |left|
    ensures var (r', rest) := Copy(r, buf);
            Stands(r', rest + more, cs, trailer, out)
  {
    var (r', rest) := Copy(r, buf);
    var left' := left[|buf|..];
    DataGoesOn(buf, more, left, CRLF + BodyText(cs, trailer));
    assert buf[..|buf|] == buf && rest == [] && rest + more == more;
    assert r.out + (buf + left') == (r.out + buf) + left';
    assert InData(r', rest + more, cs, trailer, left');
  }

  lemma CopyEnds(r: Reader, buf: string, more: string, cs: seq<Chunk>, trailer: string, left: string, out: string)
    requires Chunks(cs) && Valid(r) && r.status == Reading && InData(r, buf + more, cs, trailer, left)
    requires out == r.out + left + Payload(cs) && |left| <= |buf|
    ensures var (r', rest) := Copy(r, buf);
            Stands(r', rest + more, cs, trailer, out)
  {
    var (r', rest) := Copy(r, buf);
    DataEnds(buf, more, left, CRLF + BodyText(cs, trailer));
    assert CRLF in [CRLF, [LF], []];
    assert BeforeSize(r', rest + more, cs, trailer);
  }

  lemma CopyStands(r: Reader, buf: string, more: string, cs: seq<Chunk>, trailer: string, left: string, out: string)
    requires Chunks(cs) && Valid(r) && r.status == Reading && InData(r, buf + more, cs, trailer, left)
    requires out == r.out + left + Payload(cs)
    ensures var (r', rest) := Copy(r, buf);
            Stands(r', rest + more, cs, trailer, out)
  {
    if |buf| < |left| {
      CopyGoesOn(r, buf, more, cs, trailer, left, out);
    } else {
      CopyEnds(r, buf, more, cs, trailer, left, out);
    }
  }

  /** The size line is complete: the body ends here, or its data begin. */
  lemma SizeStands(r1: Reader, s: string, more: string, cs: seq<Chunk>, trailer: string, out: string)
      returns (cs': seq<Chunk>)
    requires Chunks(cs) && Valid(r1) && r1.digits == cs[0].size && s + more == AfterSize(cs, trailer)
    requires out == r1.out + Payload(cs)
    ensures var r2 := Reader(HexWord(r1.digits), "", r1.out, Reading);
            if r2.size == 0 then r2.out == out
            else var (r', rest) := Copy(r2, s); Stands(r', rest + more, cs', trailer, out)
  {
    var r2 := Reader(HexWord(r1.digits), "", r1.out, Reading);
    ValueDenotes(cs[0].size, |cs[0].data|);
    HexWordExact(cs[0].size);
    cs' := cs[1..];
    if |cs| == 1 {
      assert Payload(cs) == [] + Payload([]);
    } else {
      assert Chunks(cs') by {
        forall i | 0 <= i < |cs'|
          ensures WellFormed(cs'[i]) && (cs'[i].data == [] <==> i == |cs'| - 1)
        {
          assert cs'[i] == cs[i + 1];
        }
      }
      var left := cs[0].data;
      assert r2.out + (left + Payload(cs')) == r2.out + left + Payload(cs');
      CopyStands(r2, s, more, cs', trailer, left, out);
    }
  }

  lemma AfterDigitsStarts(cs: seq<Chunk>, trailer: string)
    requires Chunks(cs)
    ensures Stops(cs[0].size, AfterDigits(cs, trailer))
  {
    if cs[0].ext == [] { assert AfterDigits(cs, trailer) == CRLF + AfterSize(cs, trailer); }
  }

  /** What a passage over a size line leads to. */
  ghost predicate LineRead(r: Reader, r1: Reader, s: string, done: bool, more: string, cs: seq<Chunk>,
                           trailer: string, out: string)
    requires Chunks(cs)
  {
    && Valid(r1) && r1.out == r.out
    && (done ==> r1.digits == cs[0].size && s + more == AfterSize(cs, trailer))
    && (!done ==> Stands(r1, s + more, cs, trailer, out))
  }

  /** The digits are all there; what is left of the line is at most its extension and its end. */
  lemma AfterDigitsReads(r: Reader, r1: Reader, s: string, more: string, ext: string, cs: seq<Chunk>,
                         trailer: string, out: string)
    requires Chunks(cs) && Valid(r1) && r1 == r.(digits := cs[0].size) && r.status == Reading && r.size == 0
    requires Harmless(cs[0].size, ext) && s + more == ext + (CRLF + AfterSize(cs, trailer)) && out == r.out + Payload(cs)
    ensures var s2 := SkipOne(CR, SkipExtension(s));
            if s2 != [] && s2[0] == LF then LineRead(r, r1, s2[1..], true, more, cs, trailer, out)
            else LineRead(r, r1, s2, false, more, cs, trailer, out)
  {
    var after := AfterSize(cs, trailer);
    var s2 := SkipOne(CR, SkipExtension(s));
    ExtensionReads(r1, s, more, ext, after);
    if s2 == [] {
      assert s2 + more == more;
      if more == [LF] + after {
        assert AtNewline(r1, s2 + more, cs, trailer);
      } else {
        HarmlessTail(r1.digits, ext, |s|);
        assert InExtension(r1, s2 + more, cs, trailer);
      }
    }
  }

  /** One passage from a reader at the start of, or inside, the digits of a size. */
  lemma LineStands(r: Reader, s: string, more: string, cs: seq<Chunk>, trailer: string, out: string)
    requires Chunks(cs) && Valid(r) && r.status == Reading && r.size == 0 && r.digits <= cs[0].size
    requires s + more == cs[0].size[|r.digits|..] + AfterDigits(cs, trailer)
    requires out == r.out + Payload(cs)
    ensures var (r1, s', done) := SizeLine(r, s);
            LineRead(r, r1, s', done, more, cs, trailer, out)
  {
    var size, tail := cs[0].size, AfterDigits(cs, trailer);
    AfterDigitsStarts(cs, trailer);
    ValueDenotes(size, |cs[0].data|);
    SizeLineValid(r, s);
    TakeHexTakes(r.digits, s, more, size, tail);
    var (digits, s1) := TakeHex(r.digits, s);
    var r1 := r.(digits := digits);
    if digits == size {
      assert size[|size|..] + tail == tail;
      AfterDigitsReads(r, r1, s1, more, cs[0].ext, cs, trailer, out);
    } else {
      assert s1 == [] && [] + more == more;
      assert SizeLine(r, s) == (r1, [], false);
      if digits == [] {
        assert size[0..] == size && more == [] + BodyText(cs, trailer);
        assert [] in [CRLF, [LF], []];
        assert BeforeSize(r1, [] + more, cs, trailer);
      } else {
        assert InSize(r1, [] + more, cs, trailer);
      }
    }
  }

  /** One passage from a reader inside an extension: nothing in it is taken for a digit. */
  lemma ExtensionStands(r: Reader, buf: string, more: string, ext: string, cs: seq<Chunk>, trailer: string, out: string)
    requires Chunks(cs) && Valid(r) && r.status == Reading && r.size == 0 && r.digits == cs[0].size && buf != []
    requires Harmless(cs[0].size, ext) && buf + more == ext + (CRLF + AfterSize(cs, trailer))
    requires out == r.out + Payload(cs)
    ensures var (r1, s', done) := SizeLine(r, buf);
            LineRead(r, r1, s', done, more, cs, trailer, out)
  {
    var t := buf + more;
    assert t[0] == buf[0];
    assert Stops(r.digits, t) by {
      if ext == [] { assert t == CRLF + AfterSize(cs, trailer); } else { assert t[0] == ext[0]; }
    }
    assert TakeHex(r.digits, buf) == (r.digits, buf);
    AfterDigitsReads(r, r, buf, more, ext, cs, trailer, out);
  }

  lemma NewlineReads(r: Reader, buf: string, more: string, after: string)
    requires Valid(r) && buf != [] && buf + more == [LF] + after && r.digits != []
    ensures var (r1, s', done) := SizeLine(r, buf);
            done && r1 == r && s' + more == after
  {
    var t := buf + more;
    assert t[0] == buf[0];
    assert TakeHex(r.digits, buf) == (r.digits, buf);
    assert buf[1..] + more == t[1..] && t[1..] == after;
  }

  lemma SizeRound(r: Reader, buf: string, more: string, cs: seq<Chunk>, trailer: string, out: string)
    requires Chunks(cs) && Valid(r) && r.status == Reading && r.size == 0 && buf != []
    requires out == r.out + Payload(cs) && OnSizeLine(r, buf + more, cs, trailer)
    ensures var (r1, s', done) := SizeLine(r, Lead(r, buf));
            LineRead(r, r1, s', done, more, cs, trailer, out)
  {
    if BeforeSize(r, buf + more, cs, trailer) {
      var body := BodyText(cs, trailer);
      var lead :| lead in [CRLF, [LF], []] && buf + more == lead + body;
      ValueDenotes(cs[0].size, |cs[0].data|);
      assert body[0] == cs[0].size[0];
      var lead' := LeadSkips(r, buf, more, lead, body);
      var s0 := Lead(r, buf);
      if s0 == [] {
        assert SizeLine(r, s0) == (r, [], false);
        assert BeforeSize(r, [] + more, cs, trailer);
      } else {
        assert [] + body == body && cs[0].size[0..] == cs[0].size;
        LineStands(r, s0, more, cs, trailer, out);
      }
    } else if InSize(r, buf + more, cs, trailer) {
      LineStands(r, buf, more, cs, trailer, out);
    } else if InExtension(r, buf + more, cs, trailer) {
      var ext :| Harmless(r.digits, ext) && buf + more == ext + (CRLF + AfterSize(cs, trailer));
      ExtensionStands(r, buf, more, ext, cs, trailer, out);
    } else {
      NewlineReads(r, buf, more, AfterSize(cs, trailer));
    }
  }

  /** One round keeps the reader on its way to the same output. */
  lemma RoundStands(r: Reader, buf: string, more: string, cs: seq<Chunk>, trailer: string, out: string)
      returns (cs': seq<Chunk>)
    requires Stands(r, buf + more, cs, trailer, out) && buf != []
    ensures var (r', rest) := Round(r, buf);
            || (r'.status == Ended && r'.out == out)
            || Stands(r', rest + more, cs', trailer, out)
  {
    cs' := cs;
    if r.size != 0 {
      var left :| InData(r, buf + more, cs, trailer, left) && out == r.out + left + Payload(cs);
      CopyStands(r, buf, more, cs, trailer, left, out);
    } else {
      SizeRound(r, buf, more, cs, trailer, out);
      var (r1, s', done) := SizeLine(r, Lead(r, buf));
      if done { cs' := SizeStands(r1, s', more, cs, trailer, out); }
    }
  }

  // ---------- Fragments ----------

  lemma {:induction false} FeedStands(r: Reader, buf: string, more: string, cs: seq<Chunk>, trailer: string, out: string)
      returns (cs': seq<Chunk>)
    requires Stands(r, buf + more, cs, trailer, out)
    ensures var r' := Feed(r, buf);
            || (r'.status == Ended && r'.out == out)
            || Stands(r', more, cs', trailer, out)
    decreases |buf|
  {
    if buf == [] {
      assert buf + more == more;
      cs' := cs;
    } else {
      cs' := RoundStands(r, buf, more, cs, trailer, out);
      RoundProgress(r, buf);
      var (r1, rest) := Round(r, buf);
      if r1.status == Reading { cs' := FeedStands(r1, rest, more, cs', trailer, out); }
    }
  }

  function Concat(fragments: seq<string>): string
  {
    if fragments == [] then [] else fragments[0] + Concat(fragments[1..])
  }

  lemma {:induction false} FeedAllStands(r: Reader, fragments: seq<string>, cs: seq<Chunk>, trailer: string, out: string)
    requires Stands(r, Concat(fragments), cs, trailer, out)
    ensures FeedAll(r, fragments).status == Ended && FeedAll(r, fragments).out == out
    decreases fragments
  {
    if fragments == [] {
      assert false;
    } else {
      var cs' := FeedStands(r, fragments[0], Concat(fragments[1..]), cs, trailer, out);
      var r' := Feed(r, fragments[0]);
      if r'.status == Reading { FeedAllStands(r', fragments[1..], cs', trailer, out); }
    }
  }

  lemma StartStands(cs: seq<Chunk>, trailer: string)
    requires Chunks(cs)
    ensures Stands(START, BodyText(cs, trailer), cs, trailer, Payload(cs))
  {
    assert [] + BodyText(cs, trailer) == BodyText(cs, trailer);
    assert [] in [CRLF, [LF], []];
    assert BeforeSize(START, BodyText(cs, trailer), cs, trailer);
    assert [] + Payload(cs) == Payload(cs);
  }

  /** Every well-formed body, whatever follows it and however it is cut, is read to exactly its data. */
  lemma ChunkedBodyIsRead(cs: seq<Chunk>, trailer: string, fragments: seq<string>)
    requires Chunks(cs) && Concat(fragments) == BodyText(cs, trailer)
    ensures FeedAll(START, fragments).status == Ended
    ensures FeedAll(START, fragments).out == Payload(cs)
  {
    StartStands(cs, trailer);
    FeedAllStands(START, fragments, cs, trailer, Payload(cs));
  }

  // ---------- Hexadecimal digits in an extension ----------

  lemma {:induction false} SkipAll(s: string)
    requires OneLine(s)
    ensures SkipExtension(s) == []
  {
    if s != [] { SkipAll(s[1..]); }
  }

  lemma {:induction false} TakeHexRest(digits: string, s: string)
    requires OneLine(s)
    ensures OneLine(TakeHex(digits, s).1)
    decreases s
  {
    if |digits| < SIZE_DIGITS && s != [] && IsHex(s[0]) { TakeHexRest(digits + [s[0]], s[1..]); }
  }

  /** A buffer without a line end only adds to the digits held. */
  lemma FeedOneLine(r: Reader, buf: string)
    requires Valid(r) && r.status == Reading && r.size == 0 && OneLine(buf)
    ensures Feed(r, buf) == r.(digits := TakeHex(r.digits, buf).0)
  {
    if buf != [] {
      var (digits, s) := TakeHex(r.digits, buf);
      TakeHexRest(r.digits, buf);
      SkipAll(s);
      assert Lead(r, buf) == buf;
      assert SizeLine(r, buf) == (r.(digits := digits), [], false);
    }
  }

  lemma OneLineParts(a: string, b: string)
    requires OneLine(a + b)
    ensures OneLine(a) && OneLine(b)
  {
    forall i | 0 <= i < |a|
      ensures a[i] != CR && a[i] != LF
    {
      assert (a + b)[i] == a[i];
    }
    forall i | 0 <= i < |b|
      ensures b[i] != CR && b[i] != LF
    {
      assert (a + b)[|a| + i] == b[i];
    }
  }

  lemma HarmlessParts(size: string, a: string, b: string)
    requires Harmless(size, a + b)
    ensures Harmless(size, b) && TakeHex(size, a) == (size, a)
  {
    OneLineParts(a, b);
    assert (a + b)[|a|..] == b;
    HarmlessTail(size, a + b, |a|);
    if a != [] { assert (a + b)[0] == a[0]; }
  }

  /** With all digits read, a harmless extension adds none, however it is cut. */
  lemma {:induction false} ExtensionHeld(r: Reader, fragments: seq<string>)
    requires Valid(r) && r.status == Reading && r.size == 0 && Harmless(r.digits, Concat(fragments))
    ensures FeedAll(r, fragments) == r
    decreases fragments
  {
    if fragments != [] {
      var buf, more := fragments[0], Concat(fragments[1..]);
      HarmlessParts(r.digits, buf, more);
      OneLineParts(buf, more);
      FeedOneLine(r, buf);
      ExtensionHeld(r, fragments[1..]);
    }
  }

  /** A buffer with part of the size digits, or the rest of them and part of the extension. */
  lemma DigitsTaken(digits: string, buf: string, more: string, size: string, ext: string)
    requires digits <= size && AllHex(size) && |size| <= SIZE_DIGITS && (ext != [] ==> !IsHex(ext[0]))
    requires buf + more == size[|digits|..] + ext
    ensures var digits' := TakeHex(digits, buf).0;
            && digits' <= size
            && (digits' != size ==> more == size[|digits'|..] + ext)
            && (digits' == size ==> exists n :: 0 <= n <= |ext| && more == ext[n..])
  {
    var tail, left := ext + CRLF, size[|digits|..];
    assert buf + (more + CRLF) == (buf + more) + CRLF;
    assert left + tail == (left + ext) + CRLF;
    assert tail[0] == if ext == [] then CR else ext[0];
    TakeHexTakes(digits, buf, more + CRLF, size, tail);
    var (digits', s) := TakeHex(digits, buf);
    var left' := size[|digits'|..];
    DropEnd(s, more, left', ext);
    if digits' == size {
      assert left' + ext == ext && (s + more)[|s|..] == more;
      assert more == ext[|s|..];
    } else {
      assert s + more == more;
    }
  }

  lemma DropEnd(s: string, more: string, left: string, ext: string)
    requires s + (more + CRLF) == left + (ext + CRLF)
    ensures s + more == left + ext
  {
    var a, b := s + more, left + ext;
    assert s + (more + CRLF) == a + CRLF && left + (ext + CRLF) == b + CRLF;
    assert (a + CRLF)[..|a|] == a && (b + CRLF)[..|b|] == b;
  }

  /** From inside the digits of a size line, however it is cut, the reader comes to hold exactly the digits. */
  lemma {:induction false} LineHeld(r: Reader, fragments: seq<string>, size: string, ext: string)
    requires Valid(r) && r.status == Reading && r.size == 0 && r.digits <= size
    requires AllHex(size) && |size| <= SIZE_DIGITS && Harmless(size, ext) && (ext != [] ==> !IsHex(ext[0]))
    requires Concat(fragments) == size[|r.digits|..] + ext
    ensures FeedAll(r, fragments).digits == size
    decreases fragments
  {
    if fragments == [] {
      assert |size[|r.digits|..] + ext| == 0;
    } else {
      var buf, more := fragments[0], Concat(fragments[1..]);
      HexIsOneLine(size[|r.digits|..], ext);
      OneLineParts(buf, more);
      FeedOneLine(r, buf);
      DigitsTaken(r.digits, buf, more, size, ext);
      var r' := Feed(r, buf);
      if r'.digits == size {
        var n :| 0 <= n <= |ext| && more == ext[n..];
        HarmlessTail(size, ext, n);
        ExtensionHeld(r', fragments[1..]);
      } else {
        LineHeld(r', fragments[1..], size, ext);
      }
    }
  }

  lemma HexIsOneLine(digits: string, ext: string)
    requires AllHex(digits) && OneLine(ext)
    ensures OneLine(digits + ext)
  {
  }

  /** Cut just before a hexadecimal digit of its extension, a size line leaves the reader with more digits than
      were sent. */
  lemma CutBeforeDigit(size: string, ext: string, k: nat) returns (fragments: seq<string>)
    requires 1 <= |size| < SIZE_DIGITS && AllHex(size) && OneLine(ext)
    requires 0 < k < |ext| && !IsHex(ext[0]) && IsHex(ext[k])
    ensures Concat(fragments) == size + ext && |FeedAll(START, fragments).digits| > |size|
  {
    var a, h, b := size + ext[..k], [ext[k]], ext[k + 1..];
    fragments := [a, h, b];
    assert Concat([b]) == b + Concat([]) == b;
    assert fragments[1..] == [h, b] && [h, b][1..] == [b];
    assert ext == ext[..k] + (h + b);
    assert Concat(fragments) == a + (h + b) == size + (ext[..k] + (h + b));
    HexIsOneLine(size, ext[..k]);
    FeedOneLine(START, a);
    DigitsTaken("", a, "", size, ext[..k]);
    var r := Feed(START, a);
    assert a + "" == a && size[0..] == size;
    assert r.digits == size;
    FeedOneLine(r, h);
    assert TakeHex(size, h) == TakeHex(size + h, h[1..]);
    FeedOneLine(Feed(r, h), b);
    assert FeedAll(START, fragments) == FeedAll(r, [h, b]) == FeedAll(Feed(r, h), [b]) == Feed(Feed(r, h), b);
  }

  /** A size line leaves the reader with exactly its digits, under every cut, if and only if its extension has no
      hexadecimal digit or its size fills the digit buffer. */
  lemma SizeLineExact(size: string, ext: string)
    requires 1 <= |size| <= 31 && AllHex(size) && OneLine(ext) && (ext != [] ==> !IsHex(ext[0]))
    ensures (forall fragments :: Concat(fragments) == size + ext ==> FeedAll(START, fragments).digits == size)
       <==> Inert(ext) || |size| == 31
  {
    if Inert(ext) || |size| == 31 {
      forall fragments | Concat(fragments) == size + ext
        ensures FeedAll(START, fragments).digits == size
      {
        assert size[0..] == size;
        LineHeld(START, fragments, size, ext);
      }
    } else {
      var k :| 0 <= k < |ext| && IsHex(ext[k]);
      var fragments := CutBeforeDigit(size, ext, k);
      assert FeedAll(START, fragments).digits != size;
    }
  }
}
