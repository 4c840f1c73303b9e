/** The end-of-headers scan of `getHTTPResponse` in external/miniupnpc/miniwget.c. The whole buffer is scanned
    again each time a fragment arrives. */
module HttpHeaders {

  const CR: char := '\r'
  const LF: char := '\n'
  const CRLF: string := "\r\n"

  /** The scan from position `i`: the index after the end of the headers, or 0. It recognizes CR LF CR LF and
      LF LF, and after a failed match goes on past the characters it has looked at. */
  function ScanFrom(b: string, i: nat): (e: nat)
    ensures e > 0 ==> i + 2 <= e <= |b|
    decreases |b| - i
  {
    if i + 1 >= |b| then 0
    else if b[i] == CR then
      if b[i + 1] != LF then ScanFrom(b, i + 2)
      else if !(i + 2 < |b| && b[i + 2] == CR) then (if i + 3 <= |b| then ScanFrom(b, i + 3) else 0)
      else if i + 3 < |b| && b[i + 3] == LF then i + 4
      else if i + 4 <= |b| then ScanFrom(b, i + 4)
      else 0
    else if b[i] == LF then
      if b[i + 1] == LF then i + 2 else ScanFrom(b, i + 2)
    else ScanFrom(b, i + 1)
  }

  /** The scan loop. */
  method EndOfHeaders(b: string) returns (endOfHeaders: nat)
    ensures endOfHeaders == ScanFrom(b, 0)
  {
    endOfHeaders := 0;
    var i := 0;
    while i < |b| - 1 && endOfHeaders == 0
      invariant i >= 0
      invariant endOfHeaders == 0 ==> ScanFrom(b, 0) == if i <= |b| then ScanFrom(b, i) else 0
      invariant endOfHeaders != 0 ==> ScanFrom(b, 0) == endOfHeaders
      decreases |b| - i
    {
      if b[i] == CR {
        i := i + 1;
        if b[i] == LF {
          i := i + 1;
          if i < |b| && b[i] == CR {
            i := i + 1;
            if i < |b| && b[i] == LF {
              endOfHeaders := i + 1;
            }
          }
        }
      } else if b[i] == LF {
        i := i + 1;
        if b[i] == LF {
          endOfHeaders := i + 1;
        }
      }
      i := i + 1;
    }
  }

  /** `e` is after CR LF CR LF or LF LF. */
  predicate AfterBlank(b: string, e: nat)
    requires e <= |b|
  {
    || (e >= 4 && b[e - 4] == CR && b[e - 3] == LF && b[e - 2] == CR && b[e - 1] == LF)
    || (e >= 2 && b[e - 2] == LF && b[e - 1] == LF)
  }

  /** What is found is the end of a blank line. */
  lemma {:induction false} ScanSound(b: string, i: nat)
    requires ScanFrom(b, i) > 0
    ensures AfterBlank(b, ScanFrom(b, i))
    decreases |b| - i
  {
    if b[i] == CR && b[i + 1] != LF {
      ScanSound(b, i + 2);
    } else if b[i] == CR && !(i + 2 < |b| && b[i + 2] == CR) {
      ScanSound(b, i + 3);
    } else if b[i] == CR {
      if b[i + 3] != LF { ScanSound(b, i + 4); }
    } else if b[i] == LF {
      if b[i + 1] != LF { ScanSound(b, i + 2); }
    } else {
      ScanSound(b, i + 1);
    }
  }

  /** Appending bytes never changes an end already found, and an end found only then lies in what was appended. */
  lemma {:induction false} ScanExtends(b: string, more: string, i: nat)
    ensures ScanFrom(b, i) > 0 ==> ScanFrom(b + more, i) == ScanFrom(b, i)
    ensures ScanFrom(b, i) == 0 && ScanFrom(b + more, i) > 0 ==> ScanFrom(b + more, i) > |b|
    decreases |b| - i
  {
    if i + 1 < |b| {
      if b[i] == CR && b[i + 1] != LF {
        ScanExtends(b, more, i + 2);
      } else if b[i] == CR && !(i + 2 < |b| && b[i + 2] == CR) {
        if i + 2 < |b| { ScanExtends(b, more, i + 3); }
      } else if b[i] == CR {
        if i + 3 < |b| && b[i + 3] != LF { ScanExtends(b, more, i + 4); }
      } else if b[i] == LF {
        ScanExtends(b, more, i + 2);
      } else {
        ScanExtends(b, more, i + 1);
      }
    }
  }

  // ---------- Header blocks ----------

  /** A header line and its line end. */
  datatype HeaderLine = HeaderLine(text: string, eol: string)

  /** Lines end in CR LF or, tolerated, in LF alone. */
  predicate LineEnd(eol: string)
  {
    eol == CRLF || eol == [LF]
  }

  lemma LineEndExact(eol: string)
    ensures LineEnd(eol) <==> eol == "\r\n" || eol == "\n"
  {
  }

  predicate Line(l: HeaderLine)
  {
    l.text != [] && LineEnd(l.eol) && forall i :: 0 <= i < |l.text| ==> l.text[i] != CR && l.text[i] != LF
  }

  predicate Lines(ls: seq<HeaderLine>)
  {
    ls != [] && forall i :: 0 <= i < |ls| ==> Line(ls[i])
  }

  /** The lines, each with its own end, and the blank line. */
  function Block(ls: seq<HeaderLine>, blank: string): string
  {
    if ls == [] then blank else ls[0].text + ls[0].eol + Block(ls[1..], blank)
  }

  function LastEnd(ls: seq<HeaderLine>): string
    requires ls != []
  {
    ls[|ls| - 1].eol
  }

  lemma {:induction false} SkipLine(b: string, i: nat, j: nat)
    requires i <= j && j + 1 < |b| && forall k :: i <= k < j ==> b[k] != CR && b[k] != LF
    ensures ScanFrom(b, i) == ScanFrom(b, j)
    decreases j - i
  {
    if i < j { SkipLine(b, i + 1, j); }
  }

  /** `b` has the line end `eol` at `end`. */
  predicate EndsAt(b: string, end: nat, eol: string)
  {
    LineEnd(eol) && end + |eol| <= |b| && b[end] == eol[0] && (eol == CRLF ==> b[end + 1] == LF)
  }

  /** Scanning from the first or second character of a line reaches its line end. */
  lemma ReachLineEnd(front: string, line: HeaderLine, tail: string, i: nat)
    requires Line(line) && |front| <= i <= |front| + 1 && tail != []
    ensures var b, end := front + line.text + line.eol + tail, |front| + |line.text|;
            && ScanFrom(b, i) == ScanFrom(b, end) && EndsAt(b, end, line.eol)
            && b[end + |line.eol|] == tail[0] && (|tail| > 1 ==> b[end + |line.eol| + 1] == tail[1])
  {
    var b, end := front + line.text + line.eol + tail, |front| + |line.text|;
    forall k | i <= k < end
      ensures b[k] != CR && b[k] != LF
    {
      assert b[k] == line.text[k - |front|];
    }
    SkipLine(b, i, end);
  }

  /** From the end of a line that is not the last the scan goes on at the second character of the next. */
  lemma PassLineEnd(b: string, end: nat, eol: string)
    requires EndsAt(b, end, eol) && end + |eol| < |b| && b[end + |eol|] != CR && b[end + |eol|] != LF
    ensures ScanFrom(b, end) == ScanFrom(b, end + |eol| + 1)
  {
  }

  /** At the end of the last line the scan stops after the blank line exactly when both end alike. */
  lemma PassBlank(b: string, end: nat, eol: string, blank: string)
    requires EndsAt(b, end, eol) && EndsAt(b, end + |eol|, blank)
    ensures ScanFrom(b, end) == end + |eol| + |blank| <==> blank == eol
  {
  }

  lemma ScanLine(front: string, line: HeaderLine, tail: string, i: nat)
    requires Line(line) && |front| <= i <= |front| + 1 && tail != [] && tail[0] != CR && tail[0] != LF
    ensures var b, at := front + line.text + line.eol + tail, |front| + |line.text| + |line.eol|;
            ScanFrom(b, i) == ScanFrom(b, at + 1)
  {
    ReachLineEnd(front, line, tail, i);
    PassLineEnd(front + line.text + line.eol + tail, |front| + |line.text|, line.eol);
  }

  lemma ScanLast(front: string, line: HeaderLine, blank: string, body: string, i: nat)
    requires Line(line) && LineEnd(blank) && |front| <= i <= |front| + 1
    ensures var b, at := front + line.text + line.eol + (blank + body), |front| + |line.text| + |line.eol|;
            ScanFrom(b, i) == at + |blank| <==> blank == line.eol
  {
    var tail := blank + body;
    ReachLineEnd(front, line, tail, i);
    assert tail[0] == blank[0] && (blank == CRLF ==> tail[1] == LF);
    PassBlank(front + line.text + line.eol + tail, |front| + |line.text|, line.eol, blank);
  }

  lemma BlockLength(ls: seq<HeaderLine>, blank: string)
    ensures |Block(ls, blank)| >= |blank|
  {
  }

  lemma BlockStarts(ls: seq<HeaderLine>, blank: string, body: string)
    requires Lines(ls)
    ensures var t := Block(ls, blank) + body; t != [] && t[0] != CR && t[0] != LF
  {
    assert (Block(ls, blank) + body)[0] == ls[0].text[0];
  }

  lemma Regroup(front: string, line: string, eol: string, block: string, body: string)
    ensures front + ((line + eol + block) + body) == front + line + eol + (block + body)
  {
  }

  lemma BlockSplits(front: string, ls: seq<HeaderLine>, blank: string, body: string)
    requires ls != []
    ensures var front', rest := front + ls[0].text + ls[0].eol, Block(ls[1..], blank);
            && front + (Block(ls, blank) + body) == front' + (rest + body)
            && |front| + |Block(ls, blank)| == |front'| + |rest|
  {
    Regroup(front, ls[0].text, ls[0].eol, Block(ls[1..], blank), body);
  }

  lemma NextLine(b: string, front: string, ls: seq<HeaderLine>, blank: string, body: string, i: nat)
    requires Lines(ls) && |ls| > 1 && |front| <= i <= |front| + 1 && b == front + (Block(ls, blank) + body)
    ensures var front' := front + ls[0].text + ls[0].eol;
            && b == front' + (Block(ls[1..], blank) + body)
            && ScanFrom(b, i) == ScanFrom(b, |front'| + 1)
            && |front| + |Block(ls, blank)| == |front'| + |Block(ls[1..], blank)|
            && Lines(ls[1..]) && LastEnd(ls[1..]) == LastEnd(ls)
  {
    BlockSplits(front, ls, blank, body);
    BlockStarts(ls[1..], blank, body);
    ScanLine(front, ls[0], Block(ls[1..], blank) + body, i);
  }

  lemma LastLine(b: string, front: string, ls: seq<HeaderLine>, blank: string, body: string, i: nat)
    requires Lines(ls) && |ls| == 1 && LineEnd(blank) && |front| <= i <= |front| + 1
    requires b == front + (Block(ls, blank) + body)
    ensures ScanFrom(b, i) == |front| + |Block(ls, blank)| <==> blank == LastEnd(ls)
  {
    BlockSplits(front, ls, blank, body);
    ScanLast(front, ls[0], blank, body, i);
  }

  /** Scanning a header block, started at the first or second character of a line, ends exactly at its end if
      and only if the blank line ends like the line before it. */
  lemma {:induction false} ScanBlock(b: string, front: string, ls: seq<HeaderLine>, blank: string, body: string, i: nat)
    requires LineEnd(blank) && Lines(ls) && |front| <= i <= |front| + 1 && b == front + (Block(ls, blank) + body)
    ensures ScanFrom(b, i) == |front| + |Block(ls, blank)| <==> blank == LastEnd(ls)
    decreases ls
  {
    if |ls| == 1 {
      LastLine(b, front, ls, blank, body, i);
    } else {
      var front', next := front + ls[0].text + ls[0].eol, |front| + |ls[0].text| + |ls[0].eol| + 1;
      NextLine(b, front, ls, blank, body, i);
      assert ScanFrom(b, i) == ScanFrom(b, next);
      ScanBlock(b, front', ls[1..], blank, body, next);
    }
  }

  /** Of every header block, however its lines end and whatever the body, the scan finds the end exactly when the
      blank line ends like the last line. */
  lemma ScanFindsBlock(ls: seq<HeaderLine>, blank: string, body: string)
    requires Lines(ls) && LineEnd(blank)
    ensures ScanFrom(Block(ls, blank) + body, 0) == |Block(ls, blank)| <==> blank == LastEnd(ls)
  {
    assert "" + (Block(ls, blank) + body) == Block(ls, blank) + body;
    ScanBlock(Block(ls, blank) + body, "", ls, blank, body, 0);
  }

  /** A header block the scan recognizes. */
  function HeaderText(ls: seq<HeaderLine>): string
    requires ls != []
  {
    Block(ls, LastEnd(ls))
  }
}
