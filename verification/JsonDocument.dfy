/** JSON texts as people write them: any layout, any order of members, repeated keys. The reader of
    src/common/JsonValue.cpp accepts exactly these, and gives each its meaning. */
module JsonDocument {
  import opened Options
  import opened Json
  import opened JsonParse
  import opened JsonRoundTrip

  const DECIMAL: string := "0123456789"

  /** A value with the blanks before it. The text of a string or key is as written between its quotes. A number is
      its sign and digits, and `n` what the digits say. */
  datatype Doc =
    | Word(pad: string, word: string)
    | Number(pad: string, minus: bool, digits: string, n: nat)
    | Text(pad: string, raw: string)
    | List(pad: string, items: seq<Item>, inner: string)
    | Dict(pad: string, entries: seq<Entry>, inner: string)

  /** An element and the blanks after it. */
  datatype Item = Item(doc: Doc, after: string)

  /** A member: blanks, key, blanks, colon, value, blanks. */
  datatype Entry = Entry(before: string, raw: string, mid: string, doc: Doc, after: string)

  // ---------- Text ----------

  /** The text of a document followed by `rest`; `inner` is what an empty pair of brackets holds. */
  function Followed(doc: Doc, rest: string): string
    decreases doc, 0
  {
    match doc
    case Word(pad, word) => pad + (word + rest)
    case Number(pad, minus, digits, _) => pad + ((if minus then "-" else "") + (digits + rest))
    case Text(pad, raw) => pad + (['"'] + (raw + (['"'] + rest)))
    case List(pad, items, inner) =>
      pad + (['['] + (if items == [] then inner + ([']'] + rest) else FollowedItems(items, rest)))
    case Dict(pad, entries, inner) =>
      pad + (['{'] + (if entries == [] then inner + (['}'] + rest) else FollowedEntries(entries, rest)))
  }

  function FollowedItems(items: seq<Item>, rest: string): string
    requires items != []
    decreases items, 1
  {
    Followed(items[0].doc, items[0].after + AfterItem(items, rest))
  }

  function AfterItem(items: seq<Item>, rest: string): string
    requires items != []
    decreases items, 0
  {
    if |items| == 1 then [']'] + rest else [','] + FollowedItems(items[1..], rest)
  }

  function FollowedEntries(entries: seq<Entry>, rest: string): string
    requires entries != []
    decreases entries, 2
  {
    entries[0].before + (['"'] + FromName(entries, rest))
  }

  /** From the first name on, after its opening quote. */
  function FromName(entries: seq<Entry>, rest: string): string
    requires entries != []
    decreases entries, 1
  {
    var e := entries[0];
    e.raw + (['"'] + (e.mid + ([':'] + Followed(e.doc, e.after + AfterEntry(entries, rest)))))
  }

  function AfterEntry(entries: seq<Entry>, rest: string): string
    requires entries != []
    decreases entries, 0
  {
    if |entries| == 1 then ['}'] + rest else [','] + FollowedEntries(entries[1..], rest)
  }

  // ---------- Well-formedness and meaning ----------

  /** The white space of the classic locale. */
  predicate White(c: char)
  {
    c == ' ' || c == '\t' || c == '\n' || c == '\U{0B}' || c == '\U{0C}' || c == '\r'
  }

  predicate Blank(s: string)
  {
    forall i :: 0 <= i < |s| ==> White(s[i])
  }

  /** The text without its white space. */
  function Stripped(s: string): string
  {
    if s == [] then [] else if White(s[0]) then Stripped(s[1..]) else [s[0]] + Stripped(s[1..])
  }

  /** No bare quote, and every backslash has a character to escape. */
  predicate Quotable(s: string)
  {
    s == [] ||
    if s[0] == '\\' then |s| >= 2 && Quotable(s[2..]) else s[0] != '"' && Quotable(s[1..])
  }

  /** The decimal numeral `s` says `n`. */
  predicate Says(s: string, n: nat)
  {
    if s == [] then n == 0 else s[|s| - 1] == DECIMAL[n % 10] && Says(s[..|s| - 1], n / 10)
  }

  predicate NumberOk(minus: bool, digits: string, n: nat)
  {
    && Says(digits, n)
    && (!minus ==> digits != [])
    && (|digits| > 1 || (minus && digits != []) ==> digits[0] != '0')
  }

  predicate WellFormed(doc: Doc)
    decreases doc
  {
    Blank(doc.pad) &&
    match doc
    case Word(_, word) => word == "null" || word == "true" || word == "false"
    case Number(_, minus, digits, n) => NumberOk(minus, digits, n)
    case Text(_, raw) => Quotable(Stripped(raw))
    case List(_, items, inner) => Blank(inner) && forall i :: 0 <= i < |items| ==> ItemOk(items[i])
    case Dict(_, entries, inner) => Blank(inner) && forall i :: 0 <= i < |entries| ==> EntryOk(entries[i])
  }

  predicate ItemOk(item: Item)
    decreases item
  {
    WellFormed(item.doc) && Blank(item.after)
  }

  predicate EntryOk(e: Entry)
    decreases e
  {
    Blank(e.before) && Quotable(Stripped(e.raw)) && Blank(e.mid) && WellFormed(e.doc) && Blank(e.after)
  }

  /** Integers beyond 64 bits are read as the nearest limit. */
  function Limited(n: int): int
  {
    if n < -9223372036854775808 then -9223372036854775808
    else if n > 9223372036854775807 then 9223372036854775807
    else n
  }

  function Signed(minus: bool, n: nat): int
  {
    if minus then 0 - n else n
  }

  function Meaning(doc: Doc): Value
    decreases doc, 0
  {
    match doc
    case Word(_, word) => if word == "null" then Null else Bool(word == "true")
    case Number(_, minus, _, n) => Integer(Limited(Signed(minus, n)))
    case Text(_, raw) => Str(Stripped(raw))
    case List(_, items, _) => Array(Meanings(items))
    case Dict(_, entries, _) => Object(Given([], entries))
  }

  function Meanings(items: seq<Item>): seq<Value>
    decreases items, 1
  {
    if items == [] then [] else [Meaning(items[0].doc)] + Meanings(items[1..])
  }

  /** The members after those of `acc` and then the entries, one by one. */
  function Given(acc: seq<Member>, entries: seq<Entry>): seq<Member>
    decreases entries, 1
  {
    if entries == [] then acc
    else Given(Put(acc, Stripped(entries[0].raw), Meaning(entries[0].doc)), entries[1..])
  }

  /** What may follow a document: after a number, nothing that could belong to it. */
  predicate Ends(doc: Doc, rest: string)
  {
    doc.Number? ==> rest == [] || rest[0] !in "0123456789."
  }

  /** `s` starts with a well-formed document that means `v`, and goes on with `rest`. */
  predicate Starts(doc: Doc, s: string, v: Value, rest: string)
  {
    WellFormed(doc) && Ends(doc, rest) && s == Followed(doc, rest) && Meaning(doc) == v
  }

  // ---------- Characters ----------

  lemma SpaceExact(c: char)
    ensures IsSpace(c) <==> White(c)
  {
  }

  lemma DigitExact(c: char, d: nat)
    requires d < 10
    ensures c == DECIMAL[d] <==> IsDigit(c) && DigitValue(c) == d
  {
    assert DECIMAL[d] == ('0' as int + d) as char;
  }

  lemma BoundaryExact(rest: string)
    ensures Boundary(rest) <==> rest == [] || rest[0] !in "0123456789."
  {
    if rest != [] {
      var c := rest[0];
      if IsDigit(c) {
        DigitExact(c, DigitValue(c));
        assert "0123456789."[DigitValue(c)] == c;
      }
      if c in "0123456789." {
        var i :| 0 <= i < 11 && "0123456789."[i] == c;
        if i < 10 { DigitExact(c, i); }
      }
    }
  }

  /** Blanks in front are dropped. */
  lemma {:induction false} SkipBlank(pad: string, s: string)
    requires Blank(pad)
    ensures SkipSpace(pad + s) == SkipSpace(s)
    decreases pad
  {
    if pad == [] {
      assert pad + s == s;
    } else {
      SpaceExact(pad[0]);
      assert (pad + s)[1..] == pad[1..] + s;
      SkipBlank(pad[1..], s);
    }
  }

  lemma ReadPadded(pad: string, c: char, s: string)
    requires Blank(pad) && !White(c)
    ensures ReadChar(pad + ([c] + s)) == Some(Read(c, s))
  {
    SkipBlank(pad, [c] + s);
    SpaceExact(c);
    ReadPlain(c, s);
  }

  lemma PaddedValue(pad: string, s: string)
    requires Blank(pad)
    ensures ReadValue(pad + s) == ReadValue(s)
  {
    SkipBlank(pad, s);
  }

  /** The blanks in front of a text, and the rest. */
  lemma {:induction false} SplitBlank(s: string) returns (pad: string)
    ensures Blank(pad) && s == pad + SkipSpace(s)
  {
    if s != [] && IsSpace(s[0]) {
      SpaceExact(s[0]);
      var pad' := SplitBlank(s[1..]);
      pad := [s[0]] + pad';
      assert s == [s[0]] + (pad' + SkipSpace(s[1..]));
    } else {
      pad := [];
    }
  }

  // ---------- Strings ----------

  /** The first character that counts. */
  lemma {:induction false} SplitRaw(raw: string) returns (pad: string, c: char, more: string)
    requires Stripped(raw) != []
    ensures Blank(pad) && !White(c) && raw == pad + ([c] + more) && Stripped(raw) == [c] + Stripped(more)
  {
    if White(raw[0]) {
      pad, c, more := SplitRaw(raw[1..]);
      assert raw == [raw[0]] + (pad + ([c] + more));
      pad := [raw[0]] + pad;
    } else {
      pad, c, more := [], raw[0], raw[1..];
    }
  }

  lemma {:induction false} NothingCounts(raw: string)
    requires Stripped(raw) == []
    ensures Blank(raw)
  {
    if raw != [] {
      NothingCounts(raw[1..]);
      assert raw == [raw[0]] + raw[1..];
    }
  }

  /** A text between quotes is read without its white space. */
  lemma {:induction false} ReadRaw(raw: string, rest: string)
    requires Quotable(Stripped(raw))
    ensures ReadToken(raw + (['"'] + rest)) == Some(Read(Stripped(raw), rest))
    decreases |raw|
  {
    var tail := ['"'] + rest;
    if Stripped(raw) == [] {
      NothingCounts(raw);
      ReadPadded(raw, '"', rest);
    } else {
      var pad, c, more := SplitRaw(raw);
      Glue(pad, c, more, tail);
      ReadPadded(pad, c, more + tail);
      assert Stripped(raw)[1..] == Stripped(more);
      if c == '\\' {
        var pad2, d, more2 := SplitRaw(more);
        Glue(pad2, d, more2, tail);
        ReadPadded(pad2, d, more2 + tail);
        assert Stripped(raw) == [c, d] + Stripped(more2);
        assert Stripped(raw)[2..] == Stripped(more2);
        ReadRaw(more2, rest);
      } else {
        ReadRaw(more, rest);
      }
    }
  }

  lemma Glue(pad: string, c: char, more: string, tail: string)
    ensures (pad + ([c] + more)) + tail == pad + ([c] + (more + tail))
  {
  }

  // ---------- Numbers ----------

  lemma {:induction false} SaysExact(s: string, n: nat)
    ensures Says(s, n) <==> AllDigits(s) && ParseNat(s) == n
  {
    if s != [] {
      var front, c := s[..|s| - 1], s[|s| - 1];
      SaysExact(front, n / 10);
      DigitExact(c, n % 10);
      assert AllDigits(s) <==> AllDigits(front) && IsDigit(c);
      if AllDigits(s) && ParseNat(s) == n { assert DigitValue(c) == n % 10; }
    }
  }

  /** The first character of a number and the digits after it. */
  function First(minus: bool, digits: string): char
    requires minus || digits != []
  {
    if minus then '-' else digits[0]
  }

  function Others(minus: bool, digits: string): string
    requires minus || digits != []
  {
    if minus then digits else digits[1..]
  }

  lemma NumberSplits(minus: bool, digits: string, n: nat, rest: string)
    requires NumberOk(minus, digits, n)
    ensures (if minus then "-" else "") + (digits + rest) == [First(minus, digits)] + (Others(minus, digits) + rest)
    ensures First(minus, digits) == '-' || IsDigit(First(minus, digits))
    ensures AllDigits(Others(minus, digits)) && !LeadingZero(First(minus, digits), Others(minus, digits))
    ensures ToInteger(First(minus, digits), Others(minus, digits)) == Limited(Signed(minus, n))
  {
    SaysExact(digits, n);
    if minus {
      assert "-" + (digits + rest) == ['-'] + (digits + rest);
    } else {
      assert digits == [digits[0]] + digits[1..];
      assert "" + (digits + rest) == [digits[0]] + (digits[1..] + rest);
    }
  }

  lemma ReadNumberDoc(doc: Doc, rest: string)
    requires doc.Number? && WellFormed(doc) && Ends(doc, rest)
    ensures ReadValue(Followed(doc, rest)) == Ok(Meaning(doc), rest)
  {
    NumberSplits(doc.minus, doc.digits, doc.n, rest);
    BoundaryExact(rest);
    ReadDigits(First(doc.minus, doc.digits), Others(doc.minus, doc.digits), rest);
    PaddedValue(doc.pad, (if doc.minus then "-" else "") + (doc.digits + rest));
  }

  // ---------- One character at a time ----------

  lemma ReadBracket(body: string)
    ensures ReadValue(['['] + body) == ReadArray(body)
  {
    ReadPlain('[', body);
  }

  lemma ReadBrace(body: string)
    ensures ReadValue(['{'] + body) == ReadObject(body)
  {
    ReadPlain('{', body);
  }

  lemma ReadQuote(s: string, v: string, rest: string)
    requires ReadToken(s) == Some(Read(v, rest))
    ensures ReadValue(['"'] + s) == Ok(Str(v), rest)
  {
    ReadPlain('"', s);
  }

  lemma EmptyArray(inner: string, rest: string)
    requires Blank(inner)
    ensures ReadArray(inner + ([']'] + rest)) == Ok(Array([]), rest)
  {
    ReadPadded(inner, ']', rest);
  }

  lemma EmptyObject(inner: string, rest: string)
    requires Blank(inner)
    ensures ReadObject(inner + (['}'] + rest)) == Ok(Object([]), rest)
  {
    ReadPadded(inner, '}', rest);
  }

  /** Dropping blanks in front changes nothing for the element loop. */
  lemma ItemsSkip(s: string)
    ensures ReadItems(SkipSpace(s)) == ReadItems(s)
  {
    var pad := SplitBlank(s);
    PaddedValue(pad, SkipSpace(s));
  }

  lemma ArrayBegins(s: string, vs: seq<Value>, rest: string)
    requires SkipSpace(s) != [] && SkipSpace(s)[0] != ']' && ReadItems(s) == Ok(vs, rest)
    ensures ReadArray(s) == Ok(Array(vs), rest)
  {
    var t := SkipSpace(s);
    assert [t[0]] + t[1..] == t;
    ItemsSkip(s);
  }

  lemma LastItem(s: string, v: Value, after: string, rest: string)
    requires Blank(after) && ReadValue(s) == Ok(v, after + ([']'] + rest))
    ensures ReadItems(s) == Ok([v], rest)
  {
    ReadPadded(after, ']', rest);
  }

  lemma NextItem(s: string, v: Value, after: string, t: string, vs: seq<Value>, rest: string)
    requires Blank(after) && ReadValue(s) == Ok(v, after + ([','] + t)) && ReadItems(t) == Ok(vs, rest)
    ensures ReadItems(s) == Ok([v] + vs, rest)
  {
    ReadPadded(after, ',', t);
  }

  lemma ObjectBegins(before: string, s: string)
    requires Blank(before)
    ensures ReadObject(before + (['"'] + s)) == ReadMembers('"', s, [])
  {
    ReadPadded(before, '"', s);
  }

  lemma OneMember(s: string, name: string, mid: string, t: string, v: Value, after: string, acc: seq<Member>)
    requires Blank(mid) && ReadToken(s) == Some(Read(name, mid + ([':'] + t))) && ReadValue(t) == Ok(v, after)
    ensures ReadMembers('"', s, acc) == AfterMember(after, Put(acc, name, v))
  {
    ReadPadded(mid, ':', t);
  }

  lemma MembersEnd(after: string, acc: seq<Member>, rest: string)
    requires Blank(after)
    ensures AfterMember(after + (['}'] + rest), acc) == Ok(Object(acc), rest)
  {
    ReadPadded(after, '}', rest);
  }

  lemma MembersGoOn(after: string, before: string, s: string, acc: seq<Member>)
    requires Blank(after) && Blank(before)
    ensures AfterMember(after + ([','] + (before + (['"'] + s))), acc) == ReadMembers('"', s, acc)
  {
    ReadPadded(after, ',', before + (['"'] + s));
    ReadPadded(before, '"', s);
  }

  // ---------- Every document is read to its meaning ----------

  lemma ReadOneWord(w: string, rest: string)
    requires w == "null" || w == "true" || w == "false"
    ensures ReadValue(w + rest) == Ok(if w == "null" then Null else Bool(w == "true"), rest)
  {
    if w == "null" {
      ReadNull(rest);
    } else if w == "true" {
      ReadTrue(rest);
    } else {
      ReadFalse(rest);
    }
  }

  lemma ReadNull(rest: string)
    ensures ReadValue("null" + rest) == Ok(Null, rest)
  {
    WordReads('n', "ull", rest);
  }

  lemma ReadTrue(rest: string)
    ensures ReadValue("true" + rest) == Ok(Bool(true), rest)
  {
    WordReads('t', "rue", rest);
  }

  lemma ReadFalse(rest: string)
    ensures ReadValue("false" + rest) == Ok(Bool(false), rest)
  {
    WordReads('f', "alse", rest);
  }

  lemma WordReads(c: char, others: string, rest: string)
    requires !IsSpace(c)
    ensures ReadChar(([c] + others) + rest) == Some(Read(c, others + rest))
    ensures forall v :: ReadWord(others, others + rest, v) == Ok(v, rest)
  {
    assert ([c] + others) + rest == [c] + (others + rest);
    ReadPlain(c, others + rest);
    assert (others + rest)[|others|..] == rest;
  }

  lemma {:induction false} ReadDoc(doc: Doc, rest: string)
    requires WellFormed(doc) && Ends(doc, rest)
    ensures ReadValue(Followed(doc, rest)) == Ok(Meaning(doc), rest)
    decreases doc, 2
  {
    match doc
    case Word(pad, w) =>
      ReadOneWord(w, rest);
      PaddedValue(pad, w + rest);
    case Number(_, _, _, _) => ReadNumberDoc(doc, rest);
    case Text(pad, raw) =>
      var s := raw + (['"'] + rest);
      ReadRaw(raw, rest);
      ReadQuote(s, Stripped(raw), rest);
      PaddedValue(pad, ['"'] + s);
    case List(_, _, _) => ReadListDoc(doc, rest);
    case Dict(_, _, _) => ReadDictDoc(doc, rest);
  }

  lemma StartsWith(pad: string, c: char, s: string)
    requires Blank(pad) && !White(c)
    ensures SkipSpace(pad + ([c] + s)) == [c] + s
  {
    SkipBlank(pad, [c] + s);
    SpaceExact(c);
  }

  lemma WordStarts(pad: string, w: string, rest: string)
    requires Blank(pad) && (w == "null" || w == "true" || w == "false")
    ensures var t := SkipSpace(pad + (w + rest)); t != [] && t[0] != ']'
  {
    assert w + rest == [w[0]] + (w[1..] + rest);
    StartsWith(pad, w[0], w[1..] + rest);
  }

  /** The first character of a document that counts is not a closing bracket. */
  lemma DocStarts(doc: Doc, rest: string)
    requires WellFormed(doc)
    ensures var t := SkipSpace(Followed(doc, rest)); t != [] && t[0] != ']'
  {
    match doc
    case Word(pad, w) => WordStarts(pad, w, rest);
    case Number(pad, minus, digits, n) =>
      NumberSplits(minus, digits, n, rest);
      SpaceExact(First(minus, digits));
      StartsWith(pad, First(minus, digits), Others(minus, digits) + rest);
    case Text(pad, raw) => StartsWith(pad, '"', raw + (['"'] + rest));
    case List(pad, items, inner) =>
      StartsWith(pad, '[', if items == [] then inner + ([']'] + rest) else FollowedItems(items, rest));
    case Dict(pad, entries, inner) =>
      StartsWith(pad, '{', if entries == [] then inner + (['}'] + rest) else FollowedEntries(entries, rest));
  }

  lemma {:induction false} ReadListDoc(doc: Doc, rest: string)
    requires doc.List? && WellFormed(doc)
    ensures ReadValue(Followed(doc, rest)) == Ok(Meaning(doc), rest)
    decreases doc, 1
  {
    var items := doc.items;
    var body := if items == [] then doc.inner + ([']'] + rest) else FollowedItems(items, rest);
    PaddedValue(doc.pad, ['['] + body);
    ReadBracket(body);
    if items == [] {
      EmptyArray(doc.inner, rest);
    } else {
      assert ItemOk(items[0]);
      DocStarts(items[0].doc, items[0].after + AfterItem(items, rest));
      ReadItemsDoc(items, rest);
      ArrayBegins(body, Meanings(items), rest);
    }
  }

  /** What follows an element or member cannot belong to a number before it. */
  lemma SeparatorEnds(doc: Doc, after: string, c: char, s: string)
    requires Blank(after) && c in [',', ']', '}']
    ensures Ends(doc, after + ([c] + s))
  {
    var t := after + ([c] + s);
    if after != [] {
      assert t[0] == after[0];
      SpaceExact(t[0]);
      BoundaryExact(t);
    } else {
      assert t == [c] + s;
    }
  }

  lemma ItemsText(items: seq<Item>, rest: string)
    requires items != []
    ensures FollowedItems(items, rest)
         == Followed(items[0].doc, items[0].after
              + if |items| == 1 then [']'] + rest else [','] + FollowedItems(items[1..], rest))
  {
  }

  lemma {:induction false} ReadItemsDoc(items: seq<Item>, rest: string)
    requires items != [] && forall i :: 0 <= i < |items| ==> ItemOk(items[i])
    ensures ReadItems(FollowedItems(items, rest)) == Ok(Meanings(items), rest)
    decreases items, 0
  {
    var doc, after, s := items[0].doc, items[0].after, FollowedItems(items, rest);
    assert ItemOk(items[0]);
    ItemsText(items, rest);
    if |items| == 1 {
      SeparatorEnds(doc, after, ']', rest);
      ReadDoc(doc, after + ([']'] + rest));
      LastItem(s, Meaning(doc), after, rest);
      assert Meanings(items) == [Meaning(doc)] + Meanings([]) == [Meaning(doc)];
    } else {
      var t := FollowedItems(items[1..], rest);
      SeparatorEnds(doc, after, ',', t);
      ReadDoc(doc, after + ([','] + t));
      ReadItemsDoc(items[1..], rest);
      NextItem(s, Meaning(doc), after, t, Meanings(items[1..]), rest);
    }
  }

  lemma {:induction false} ReadDictDoc(doc: Doc, rest: string)
    requires doc.Dict? && WellFormed(doc)
    ensures ReadValue(Followed(doc, rest)) == Ok(Meaning(doc), rest)
    decreases doc, 1
  {
    var entries := doc.entries;
    var body := if entries == [] then doc.inner + (['}'] + rest) else FollowedEntries(entries, rest);
    PaddedValue(doc.pad, ['{'] + body);
    ReadBrace(body);
    if entries == [] {
      EmptyObject(doc.inner, rest);
    } else {
      assert EntryOk(entries[0]);
      ObjectBegins(entries[0].before, FromName(entries, rest));
      ReadEntriesDoc([], entries, rest);
    }
  }

  lemma {:induction false} ReadEntryDoc(acc: seq<Member>, e: Entry, c: char, s: string)
    requires EntryOk(e) && c in [',', ']', '}']
    ensures var after := e.after + ([c] + s);
            ReadMembers('"', e.raw + (['"'] + (e.mid + ([':'] + Followed(e.doc, after)))), acc)
            == AfterMember(after, Put(acc, Stripped(e.raw), Meaning(e.doc)))
    decreases e, 0
  {
    var after := e.after + ([c] + s);
    var t := Followed(e.doc, after);
    SeparatorEnds(e.doc, e.after, c, s);
    ReadDoc(e.doc, after);
    ReadRaw(e.raw, e.mid + ([':'] + t));
    OneMember(e.raw + (['"'] + (e.mid + ([':'] + t))), Stripped(e.raw), e.mid, t, Meaning(e.doc), after, acc);
  }

  lemma {:induction false} ReadEntriesDoc(acc: seq<Member>, entries: seq<Entry>, rest: string)
    requires entries != [] && forall i :: 0 <= i < |entries| ==> EntryOk(entries[i])
    ensures ReadMembers('"', FromName(entries, rest), acc) == Ok(Object(Given(acc, entries)), rest)
    decreases entries, 1
  {
    var e := entries[0];
    assert EntryOk(e);
    var acc' := Put(acc, Stripped(e.raw), Meaning(e.doc));
    if |entries| == 1 {
      ReadEntryDoc(acc, e, '}', rest);
      MembersEnd(e.after, acc', rest);
      assert Given(acc', entries[1..]) == acc';
    } else {
      var more := entries[1..];
      assert EntryOk(more[0]);
      ReadEntryDoc(acc, e, ',', FollowedEntries(more, rest));
      MembersGoOn(e.after, more[0].before, FromName(more, rest), acc');
      ReadEntriesDoc(acc', more, rest);
    }
  }

  // ---------- Nothing else is accepted ----------

  lemma {:induction false} StrippedBlank(pad: string)
    requires Blank(pad)
    ensures Stripped(pad) == []
  {
    if pad != [] { StrippedBlank(pad[1..]); }
  }

  lemma {:induction false} StripPrefix(pad: string, c: char, more: string)
    requires Blank(pad) && !White(c)
    ensures Stripped(pad + ([c] + more)) == [c] + Stripped(more)
    decreases pad
  {
    var s := pad + ([c] + more);
    if pad == [] {
      assert s == [c] + more && s[1..] == more;
    } else {
      assert s[0] == pad[0] && s[1..] == pad[1..] + ([c] + more);
      StripPrefix(pad[1..], c, more);
    }
  }

  /** The next character that counts, and the blanks before it. */
  lemma CharOf(s: string) returns (pad: string)
    requires ReadChar(s).Some?
    ensures var r := ReadChar(s).value;
            Blank(pad) && !White(r.value) && s == pad + ([r.value] + r.rest)
  {
    pad := SplitBlank(s);
    var t := SkipSpace(s);
    SpaceExact(t[0]);
    assert t == [t[0]] + t[1..];
  }

  /** A token that was read stands in the text with its white space. */
  lemma {:induction false} RawOf(s: string) returns (raw: string)
    requires ReadToken(s).Some?
    ensures var r := ReadToken(s).value;
            s == raw + (['"'] + r.rest) && Stripped(raw) == r.value && Quotable(r.value)
    decreases |s|
  {
    var pad := CharOf(s);
    var Read(c, s1) := ReadChar(s).value;
    if c == '"' {
      raw := pad;
      StrippedBlank(pad);
    } else if c == '\\' {
      var pad2 := CharOf(s1);
      var Read(d, s2) := ReadChar(s1).value;
      var raw2 := RawOf(s2);
      var more := pad2 + ([d] + raw2);
      raw := pad + ([c] + more);
      StripPrefix(pad2, d, raw2);
      StripPrefix(pad, c, more);
      Glue(pad2, d, raw2, s2[|raw2|..]);
      Glue(pad, c, more, s2[|raw2|..]);
      assert s2 == raw2 + s2[|raw2|..];
      assert s2[|raw2|..] == ['"'] + ReadToken(s).value.rest;
      assert Stripped(raw)[2..] == Stripped(raw2);
    } else {
      var raw1 := RawOf(s1);
      raw := pad + ([c] + raw1);
      StripPrefix(pad, c, raw1);
      Glue(pad, c, raw1, s1[|raw1|..]);
      assert s1 == raw1 + s1[|raw1|..];
      assert s1[|raw1|..] == ['"'] + ReadToken(s).value.rest;
      assert Stripped(raw)[1..] == Stripped(raw1);
    }
  }

  lemma {:induction false} RunSplits(run: string, s: string)
    ensures var r := TakeRun(run, s);
            run + s == r.0 + r.1 && run <= r.0 && Boundary(r.1)
    decreases s
  {
    if s != [] && InNumber(s[0]) {
      RunSplits(run + [s[0]], s[1..]);
      assert run + s == (run + [s[0]]) + s[1..];
    }
  }

  lemma NumberOf(c: char, s: string) returns (doc: Doc)
    requires (c == '-' || IsDigit(c)) && ReadNumber(c, s).Ok?
    ensures doc.Number? && doc.pad == "" && Starts(doc, [c] + s, ReadNumber(c, s).value, ReadNumber(c, s).rest)
  {
    var (run, rest) := TakeRun("", s);
    RunSplits("", s);
    assert "" + s == s;
    TakeRunInNumber("", s);
    NoDots(run);
    BoundaryExact(rest);
    doc := DigitsDoc(c, run, rest);
  }

  lemma DigitsDoc(c: char, run: string, rest: string) returns (doc: Doc)
    requires (c == '-' || IsDigit(c)) && AllDigits(run) && !LeadingZero(c, run)
    requires rest == [] || rest[0] !in "0123456789."
    ensures doc.Number? && doc.pad == "" && Starts(doc, [c] + (run + rest), Integer(ToInteger(c, run)), rest)
  {
    var minus := c == '-';
    var digits := if minus then run else [c] + run;
    var n := ParseNat(digits);
    SaysExact(digits, n);
    doc := Number("", minus, digits, n);
    NumberSplits(minus, digits, n, rest);
    assert First(minus, digits) == c && Others(minus, digits) == run;
    assert "" + ([c] + (run + rest)) == [c] + (run + rest);
  }

  lemma WordOf(c: char, others: string, s: string) returns (doc: Doc)
    requires [c] + others == "null" || [c] + others == "true" || [c] + others == "false"
    requires others <= s
    ensures doc == Word("", [c] + others) && WellFormed(doc) && [c] + s == Followed(doc, s[|others|..])
  {
    doc := Word("", [c] + others);
    assert s == others + s[|others|..];
    assert [c] + s == ([c] + others) + s[|others|..];
  }

  function Repadded(doc: Doc, pad: string): Doc
  {
    doc.(pad := pad)
  }

  lemma RepaddedStarts(doc: Doc, pad: string, s: string, v: Value, rest: string)
    requires Starts(doc, s, v, rest) && doc.pad == "" && Blank(pad)
    ensures Starts(Repadded(doc, pad), pad + s, v, rest)
  {
    assert "" + s == s;
    BareText(doc, rest);
  }

  lemma BareText(doc: Doc, rest: string)
    requires doc.pad == ""
    ensures forall pad :: Followed(Repadded(doc, pad), rest) == pad + Followed(doc, rest)
  {
    forall pad
      ensures Followed(Repadded(doc, pad), rest) == pad + Followed(doc, rest)
    {
      match doc
      case Word(_, w) => assert "" + (w + rest) == w + rest;
      case Number(_, minus, digits, _) =>
        var t := (if minus then "-" else "") + (digits + rest);
        assert "" + t == t;
      case Text(_, raw) =>
        var t := ['"'] + (raw + (['"'] + rest));
        assert "" + t == t;
      case List(_, items, inner) =>
        var t := ['['] + (if items == [] then inner + ([']'] + rest) else FollowedItems(items, rest));
        assert "" + t == t;
      case Dict(_, entries, inner) =>
        var t := ['{'] + (if entries == [] then inner + (['}'] + rest) else FollowedEntries(entries, rest));
        assert "" + t == t;
    }
  }

  /** Every value that is read stands in the text as a well-formed document. */
  lemma {:induction false} DocOf(s: string) returns (doc: Doc)
    requires ReadValue(s).Ok?
    ensures Starts(doc, s, ReadValue(s).value, ReadValue(s).rest)
    decreases |s|, 0
  {
    var pad := CharOf(s);
    var Read(c, s1) := ReadChar(s).value;
    doc := BareDocOf(c, s1, s);
    RepaddedStarts(doc, pad, [c] + s1, ReadValue(s).value, ReadValue(s).rest);
    doc := Repadded(doc, pad);
  }

  lemma {:induction false} BareDocOf(c: char, s1: string, s: string) returns (doc: Doc)
    requires ReadValue(s).Ok? && ReadChar(s) == Some(Read(c, s1))
    ensures doc.pad == "" && Starts(doc, [c] + s1, ReadValue(s).value, ReadValue(s).rest)
    decreases |s1|, 3
  {
    if c == '[' {
      doc := ListOf(s1);
    } else if c == 't' {
      doc := WordOf(c, "rue", s1);
    } else if c == 'f' {
      doc := WordOf(c, "alse", s1);
    } else if c == '-' || IsDigit(c) {
      doc := NumberOf(c, s1);
    } else if c == 'n' {
      doc := WordOf(c, "ull", s1);
    } else if c == '{' {
      doc := DictOf(s1);
    } else {
      var raw := RawOf(s1);
      doc := Text("", raw);
      assert "" + (['"'] + s1) == ['"'] + s1;
    }
  }

  lemma {:induction false} ListOf(s: string) returns (doc: Doc)
    requires ReadArray(s).Ok?
    ensures doc.pad == "" && Starts(doc, ['['] + s, ReadArray(s).value, ReadArray(s).rest)
    decreases |s|, 2
  {
    var pad := CharOf(s);
    var Read(c, s1) := ReadChar(s).value;
    assert "" + (['['] + s) == ['['] + s;
    if c == ']' {
      doc := List("", [], pad);
    } else {
      ItemsSkip(s);
      assert SkipSpace(s) == [c] + s1;
      var items := ItemsOf(s);
      doc := List("", items, "");
    }
  }

  lemma {:induction false} ItemsOf(s: string) returns (items: seq<Item>)
    requires ReadItems(s).Ok?
    ensures items != [] && forall i :: 0 <= i < |items| ==> ItemOk(items[i])
    ensures s == FollowedItems(items, ReadItems(s).rest) && Meanings(items) == ReadItems(s).value
    decreases |s|, 1
  {
    var doc := DocOf(s);
    var s1 := ReadValue(s).rest;
    var after := CharOf(s1);
    var Read(c, s2) := ReadChar(s1).value;
    if c == ']' {
      items := [Item(doc, after)];
      assert Meanings(items) == [Meaning(doc)] + Meanings([]) == [Meaning(doc)];
    } else {
      var more := ItemsOf(s2);
      items := [Item(doc, after)] + more;
      assert items[1..] == more;
    }
    ItemsText(items, ReadItems(s).rest);
  }

  lemma {:induction false} DictOf(s: string) returns (doc: Doc)
    requires ReadObject(s).Ok?
    ensures doc.pad == "" && Starts(doc, ['{'] + s, ReadObject(s).value, ReadObject(s).rest)
    decreases |s|, 2
  {
    var pad := CharOf(s);
    var Read(c, s1) := ReadChar(s).value;
    assert "" + (['{'] + s) == ['{'] + s;
    if c == '}' {
      doc := Dict("", [], pad);
    } else {
      var entries := EntriesOf(pad, s1, []);
      doc := Dict("", entries, "");
    }
  }

  lemma EntriesText(entries: seq<Entry>, rest: string)
    requires entries != []
    ensures var e := entries[0];
            FromName(entries, rest) == e.raw + (['"'] + (e.mid + ([':'] + Followed(e.doc, e.after
              + if |entries| == 1 then ['}'] + rest else [','] + FollowedEntries(entries[1..], rest)))))
  {
  }

  /** The first member that was read, with `after` still to be read. */
  lemma {:induction false} EntryOf(before: string, s: string, acc: seq<Member>) returns (e: Entry, after: string)
    requires Blank(before) && ReadMembers('"', s, acc).Ok?
    ensures e.before == before && EntryOk(e) && |after| < |s|
    ensures s == e.raw + (['"'] + (e.mid + ([':'] + Followed(e.doc, after))))
    ensures ReadMembers('"', s, acc) == AfterMember(after, Put(acc, Stripped(e.raw), Meaning(e.doc)))
    decreases |s|, 0
  {
    var raw := RawOf(s);
    var Read(name, s1) := ReadToken(s).value;
    var mid := CharOf(s1);
    var Read(_, s2) := ReadChar(s1).value;
    var doc := DocOf(s2);
    after := ReadValue(s2).rest;
    e := Entry(before, raw, mid, doc, "");
  }

  lemma {:induction false} EntriesOf(before: string, s: string, acc: seq<Member>) returns (entries: seq<Entry>)
    requires Blank(before) && ReadMembers('"', s, acc).Ok?
    ensures entries != [] && entries[0].before == before && forall i :: 0 <= i < |entries| ==> EntryOk(entries[i])
    ensures var p := ReadMembers('"', s, acc);
            s == FromName(entries, p.rest) && p.value == Object(Given(acc, entries))
    decreases |s|, 1
  {
    var e, s1 := EntryOf(before, s, acc);
    var acc' := Put(acc, Stripped(e.raw), Meaning(e.doc));
    var after := CharOf(s1);
    var Read(c, s2) := ReadChar(s1).value;
    e := e.(after := after);
    if c == '}' {
      entries := [e];
      assert Given(acc', []) == acc';
    } else {
      var before' := CharOf(s2);
      var Read(_, s3) := ReadChar(s2).value;
      var more := EntriesOf(before', s3, acc');
      entries := [e] + more;
      assert entries[1..] == more;
    }
    EntriesText(entries, ReadMembers('"', s, acc).rest);
  }

  // ---------- Objects hold the last value given ----------

  /** The value of the last entry with the key. */
  function LastGiven(entries: seq<Entry>, key: string): Option<Value>
  {
    if entries == [] then None
    else
      var e := entries[|entries| - 1];
      if Stripped(e.raw) == key then Some(Meaning(e.doc)) else LastGiven(entries[..|entries| - 1], key)
  }

  lemma {:induction false} GivenAppend(acc: seq<Member>, entries: seq<Entry>, e: Entry)
    ensures Given(acc, entries + [e]) == Put(Given(acc, entries), Stripped(e.raw), Meaning(e.doc))
    decreases entries
  {
    if entries == [] {
      assert (entries + [e])[1..] == [];
    } else {
      assert (entries + [e])[1..] == entries[1..] + [e];
      GivenAppend(Put(acc, Stripped(entries[0].raw), Meaning(entries[0].doc)), entries[1..], e);
    }
  }

  /** An object in a text means the map that holds, for each key, the last value given, in key order. */
  lemma {:induction false} GivenExact(entries: seq<Entry>, key: string)
    ensures Sorted(Given([], entries)) && Lookup(Given([], entries), key) == LastGiven(entries, key)
  {
    if entries != [] {
      var front, e := entries[..|entries| - 1], entries[|entries| - 1];
      assert entries == front + [e];
      GivenExact(front, key);
      GivenAppend([], front, e);
      PutSorted(Given([], front), Stripped(e.raw), Meaning(e.doc));
      PutLookup(Given([], front), Stripped(e.raw), Meaning(e.doc), key);
    }
  }

  // ---------- Printing writes the bare document ----------

  /** A printed number is the decimal numeral of its size. */
  lemma PrintNatSays(n: nat)
    ensures Says(PrintNat(n), n)
  {
    PrintNatDigits(n);
    SaysExact(PrintNat(n), n);
  }

  /** A value as a document without blanks, its members in the order they are held. */
  function Compact(v: Value): Doc
    decreases v, 0
  {
    match v
    case Null => Word("", "null")
    case Bool(b) => Word("", if b then "true" else "false")
    case Integer(n) =>
      var size: nat := if n < 0 then -n else n;
      Number("", n < 0, PrintNat(size), size)
    case Str(s) => Text("", s)
    case Array(items) => List("", CompactItems(items), "")
    case Object(members) => Dict("", CompactMembers(members), "")
  }

  function CompactItems(items: seq<Value>): (out: seq<Item>)
    ensures |out| == |items|
    decreases items, 1
  {
    if items == [] then [] else [Item(Compact(items[0]), "")] + CompactItems(items[1..])
  }

  function CompactMembers(members: seq<Member>): (out: seq<Entry>)
    ensures |out| == |members|
    decreases members, 1
  {
    if members == [] then []
    else [Entry("", members[0].key, "", Compact(members[0].val), "")] + CompactMembers(members[1..])
  }

  lemma Bare(s: string)
    ensures "" + s == s
  {
  }

  /** Printing gives exactly the text of that document, and its numbers are the decimal numerals of their size. */
  lemma {:induction false} PrintIsCompact(v: Value, rest: string)
    ensures Followed(Compact(v), rest) == Print(v) + rest
    decreases v, 2
  {
    match v
    case Null => Bare("null" + rest);
    case Bool(b) => Bare((if b then "true" else "false") + rest);
    case Integer(n) =>
      var digits := PrintNat(if n < 0 then -n else n);
      Regroup(if n < 0 then "-" else "", digits, rest);
      Bare(digits);
      Bare((if n < 0 then "-" else "") + (digits + rest));
    case Str(s) =>
      Regroup("\"" + s, "\"", rest);
      Regroup("\"", s, "\"" + rest);
      Bare(['"'] + (s + (['"'] + rest)));
    case Array(items) => ArrayIsCompact(items, rest);
    case Object(members) => ObjectIsCompact(members, rest);
  }

  lemma {:induction false} ArrayIsCompact(items: seq<Value>, rest: string)
    ensures Followed(Compact(Array(items)), rest) == Print(Array(items)) + rest
    decreases items, 3
  {
    Braced("[", PrintItems(items), "]", rest);
    Regroup(PrintItems(items), "]", rest);
    var body := PrintItems(items) + ([']'] + rest);
    Bare(['['] + body);
    Bare([']'] + rest);
    if items != [] { ItemsAreCompact(items, rest); }
  }

  lemma {:induction false} ItemsAreCompact(items: seq<Value>, rest: string)
    requires items != []
    ensures FollowedItems(CompactItems(items), rest) == PrintItems(items) + ([']'] + rest)
    decreases items, 2
  {
    var docs, v := CompactItems(items), items[0];
    ItemsText(docs, rest);
    if |items| == 1 {
      Bare([']'] + rest);
      PrintIsCompact(v, [']'] + rest);
    } else {
      var t := FollowedItems(docs[1..], rest);
      assert docs[1..] == CompactItems(items[1..]);
      ItemsAreCompact(items[1..], rest);
      Bare([','] + t);
      PrintIsCompact(v, [','] + t);
      ThreeParts(Print(v), ",", PrintItems(items[1..]), [']'] + rest);
    }
  }

  lemma ThreeParts(a: string, b: string, c: string, d: string)
    ensures (a + b + c) + d == a + (b + (c + d))
  {
  }

  lemma {:induction false} ObjectIsCompact(members: seq<Member>, rest: string)
    ensures Followed(Compact(Object(members)), rest) == Print(Object(members)) + rest
    decreases members, 3
  {
    Braced("{", PrintMembers(members), "}", rest);
    Regroup(PrintMembers(members), "}", rest);
    var body := PrintMembers(members) + (['}'] + rest);
    Bare(['{'] + body);
    Bare(['}'] + rest);
    if members != [] { MembersAreCompact(members, rest); }
  }

  lemma {:induction false} MembersAreCompact(members: seq<Member>, rest: string)
    requires members != []
    ensures FollowedEntries(CompactMembers(members), rest) == PrintMembers(members) + (['}'] + rest)
    decreases members, 2
  {
    var entries, m := CompactMembers(members), members[0];
    EntriesText(entries, rest);
    Bare(['"'] + FromName(entries, rest));
    if |members| == 1 {
      MemberIsCompact(m, ['}'] + rest);
    } else {
      var t := FollowedEntries(entries[1..], rest);
      assert entries[1..] == CompactMembers(members[1..]);
      MembersAreCompact(members[1..], rest);
      MemberIsCompact(m, [','] + t);
      ThreeParts(PrintMember(m), ",", PrintMembers(members[1..]), ['}'] + rest);
    }
  }

  lemma {:induction false} MemberIsCompact(m: Member, tail: string)
    ensures ['"'] + (m.key + (['"'] + ("" + ([':'] + Followed(Compact(m.val), "" + tail))))) == PrintMember(m) + tail
    decreases m, 3
  {
    Bare(tail);
    PrintIsCompact(m.val, tail);
    QuoteSplits(m.key, Print(m.val), tail);
    var t := [':'] + (Print(m.val) + tail);
    Bare(t);
    Regroup(m.key, "\"", t);
  }

  // ---------- Refusals ----------

  lemma {:induction false} DotsExact(s: string)
    ensures Dots(s) == multiset(s)['.']
  {
    if s != [] {
      DotsExact(s[1..]);
      assert s == [s[0]] + s[1..];
    }
  }

  /** A number with a needless zero in front is refused; one with a point is not an integer, and with two points
      nothing. */
  lemma NumberRefused(c: char, run: string, rest: string)
    requires (c == '-' || IsDigit(c)) && AllInNumber(run) && Boundary(rest)
    ensures Dots(run) > 1 ==> ReadValue([c] + (run + rest)) == Error
    ensures Dots(run) == 1 ==> ReadValue([c] + (run + rest)) == RealNumber
    ensures Dots(run) == 0 && run != [] && (c == '0' || (c == '-' && run[0] == '0')) ==>
              ReadValue([c] + (run + rest)) == Error
  {
    WholeRun("", run, rest);
    assert "" + run == run;
    ReadPlain(c, run + rest);
  }

  lemma {:induction false} WholeRun(taken: string, run: string, rest: string)
    requires AllInNumber(run) && Boundary(rest)
    ensures TakeRun(taken, run + rest) == (taken + run, rest)
    decreases run
  {
    if run == [] {
      assert run + rest == rest && taken + run == taken;
    } else {
      WholeRun(taken + [run[0]], run[1..], rest);
      assert (run + rest)[1..] == run[1..] + rest;
      assert taken + [run[0]] + run[1..] == taken + run;
    }
  }

  /** A word is read as a whole or refused, and nothing but a value can start a text. */
  lemma WordRefused(c: char, s: string)
    requires !White(c)
    ensures c == 't' && !("rue" <= s) ==> ReadValue([c] + s) == Error
    ensures c == 'f' && !("alse" <= s) ==> ReadValue([c] + s) == Error
    ensures c == 'n' && !("ull" <= s) ==> ReadValue([c] + s) == Error
    ensures c !in "[{\"tfn-0123456789" ==> ReadValue([c] + s) == Error
  {
    SpaceExact(c);
    ReadPlain(c, s);
    if IsDigit(c) {
      DigitExact(c, DigitValue(c));
      assert "[{\"tfn-0123456789"[7 + DigitValue(c)] == c;
    }
  }

  // ---------- Main results ----------

  /** The reader returns `v` and leaves `rest` exactly when the text starts with a well-formed document that means
      `v` and goes on with `rest`. */
  lemma ReadValueExact(s: string, v: Value, rest: string)
    ensures ReadValue(s) == Ok(v, rest) <==> exists doc :: Starts(doc, s, v, rest)
  {
    if ReadValue(s) == Ok(v, rest) { var doc := DocOf(s); }
    if doc :| Starts(doc, s, v, rest) { ReadDoc(doc, rest); }
  }

  /** `fromString` returns `v` exactly when the text starts with a document that means `v`. */
  lemma FromStringExact(s: string, v: Value)
    ensures FromString(s) == Some(v) <==> exists doc, rest :: Starts(doc, s, v, rest)
  {
    if FromString(s) == Some(v) { var doc := DocOf(s); }
    if doc, rest :| Starts(doc, s, v, rest) { ReadDoc(doc, rest); }
  }
}
