/** Printing and parsing undo each other exactly on clean values. */
module JsonRoundTrip {
  import opened Options
  import opened Json
  import opened JsonParse

  // ---------- Single characters and words ----------

  lemma ReadPlain(c: char, s: string)
    requires !IsSpace(c)
    ensures ReadChar([c] + s) == Some(Read(c, s))
  {
    assert ([c] + s)[1..] == s;
  }

  /** A clean token and its closing quote are read back as they stand. */
  lemma {:induction false} ReadCleanToken(s: string, rest: string)
    requires CleanToken(s)
    ensures ReadToken(s + "\"" + rest) == Some(Read(s, rest))
    decreases s
  {
    var t := s + "\"" + rest;
    if s == [] {
      assert t == ['"'] + rest;
      ReadPlain('"', rest);
    } else if s[0] == '\\' {
      var t2 := s[2..] + "\"" + rest;
      assert t == [s[0]] + ([s[1]] + t2);
      ReadPlain(s[0], [s[1]] + t2);
      ReadPlain(s[1], t2);
      ReadCleanToken(s[2..], rest);
      assert s == [s[0], s[1]] + s[2..];
    } else {
      var t1 := s[1..] + "\"" + rest;
      assert t == [s[0]] + t1;
      ReadPlain(s[0], t1);
      ReadCleanToken(s[1..], rest);
      assert s == [s[0]] + s[1..];
    }
  }

  /** Whatever token is read is clean. */
  lemma {:induction false} TokensAreClean(s: string)
    ensures ReadToken(s).Some? ==> CleanToken(ReadToken(s).value.value)
    decreases |s|
  {
    match ReadChar(s)
    case None =>
    case Some(Read(c, s1)) =>
      if c == '\\' {
        match ReadChar(s1)
        case None =>
        case Some(Read(d, s2)) =>
          TokensAreClean(s2);
          if ReadToken(s2).Some? {
            var v := ReadToken(s2).value.value;
            assert ([c, d] + v)[2..] == v;
          }
      } else if c != '"' {
        TokensAreClean(s1);
        if ReadToken(s1).Some? {
          var v := ReadToken(s1).value.value;
          assert ([c] + v)[1..] == v;
        }
      }
  }

  // ---------- Integers ----------

  ghost predicate AllDigits(s: string)
  {
    forall i :: 0 <= i < |s| ==> IsDigit(s[i])
  }

  lemma {:induction false} PrintNatDigits(n: nat)
    ensures AllDigits(PrintNat(n)) && ParseNat(PrintNat(n)) == n
    ensures n > 0 ==> PrintNat(n)[0] != '0'
    ensures n < 10 || |PrintNat(n)| > 1
    decreases n
  {
    if n >= 10 {
      PrintNatDigits(n / 10);
      var text := PrintNat(n);
      assert text[..|text| - 1] == PrintNat(n / 10);
    } else {
      assert PrintNat(n)[..0] == [];
    }
  }

  /** The next character cannot be taken for part of a number. */
  predicate Boundary(rest: string)
  {
    rest == [] || !InNumber(rest[0])
  }

  lemma {:induction false} RunOfDigits(run: string, digits: string, rest: string)
    requires AllDigits(digits) && Boundary(rest)
    ensures TakeRun(run, digits + rest) == (run + digits, rest)
    decreases digits
  {
    if digits == [] {
      assert digits + rest == rest && run + digits == run;
    } else {
      RunOfDigits(run + [digits[0]], digits[1..], rest);
      assert (digits + rest)[1..] == digits[1..] + rest;
      assert run + [digits[0]] + digits[1..] == run + digits;
    }
  }

  lemma {:induction false} DigitsHaveNoDots(digits: string)
    requires AllDigits(digits)
    ensures Dots(digits) == 0
  {
    if digits != [] { DigitsHaveNoDots(digits[1..]); }
  }

  lemma ReadDigits(c: char, digits: string, rest: string)
    requires (c == '-' || IsDigit(c)) && AllDigits(digits) && Boundary(rest) && !LeadingZero(c, digits)
    ensures ReadValue([c] + (digits + rest)) == Ok(Integer(ToInteger(c, digits)), rest)
  {
    RunOfDigits("", digits, rest);
    assert "" + digits == digits;
    DigitsHaveNoDots(digits);
    assert ReadNumber(c, digits + rest) == Ok(Integer(ToInteger(c, digits)), rest);
    ReadPlain(c, digits + rest);
  }

  lemma ReadPrintedNat(n: nat, rest: string)
    requires n <= INT64_MAX && Boundary(rest)
    ensures ReadValue(PrintNat(n) + rest) == Ok(Integer(n), rest)
  {
    PrintNatDigits(n);
    var text := PrintNat(n);
    Regroup([text[0]], text[1..], rest);
    assert text == [text[0]] + text[1..];
    ReadDigits(text[0], text[1..], rest);
  }

  lemma ReadPrintedNegative(n: nat, rest: string)
    requires 0 < n <= -INT64_MIN && Boundary(rest)
    ensures ReadValue(("-" + PrintNat(n)) + rest) == Ok(Integer(0 - n), rest)
  {
    PrintNatDigits(n);
    ReadDigits('-', PrintNat(n), rest);
    Regroup("-", PrintNat(n), rest);
  }

  lemma Regroup(a: string, b: string, c: string)
    ensures (a + b) + c == a + (b + c)
  {
  }

  lemma ReadPrintedInt(n: int, rest: string)
    requires INT64_MIN <= n <= INT64_MAX && Boundary(rest)
    ensures ReadValue(PrintInt(n) + rest) == Ok(Integer(n), rest)
  {
    if n < 0 { ReadPrintedNegative(-n, rest); } else { ReadPrintedNat(n, rest); }
  }

  // ---------- Values ----------

  /** Only an integer needs to be told apart from what follows it. */
  predicate Separated(v: Value, rest: string)
  {
    v.Integer? ==> Boundary(rest)
  }

  predicate Good(v: Value)
  {
    Representable(v) && Clean(v)
  }

  lemma PrintStarts(v: Value)
    ensures Print(v) != [] && !IsSpace(Print(v)[0]) && Print(v)[0] != ']'
  {
    if v.Integer? {
      PrintNatDigits(if v.n < 0 then -v.n else v.n);
    }
  }

  lemma PrintItemsStarts(items: seq<Value>)
    requires items != []
    ensures PrintItems(items) != [] && !IsSpace(PrintItems(items)[0]) && PrintItems(items)[0] != ']'
  {
    PrintStarts(items[0]);
  }

  lemma ReadPrintedWord(v: Value, rest: string)
    requires v.Null? || v.Bool?
    ensures ReadValue(Print(v) + rest) == Ok(v, rest)
  {
    var text := Print(v);
    assert text + rest == [text[0]] + (text[1..] + rest);
    ReadPlain(text[0], text[1..] + rest);
    assert (text[1..] + rest)[|text| - 1..] == rest;
  }

  lemma ReadPrintedString(s: string, rest: string)
    requires CleanToken(s)
    ensures ReadValue(Print(Str(s)) + rest) == Ok(Str(s), rest)
  {
    assert Print(Str(s)) + rest == ['"'] + (s + "\"" + rest);
    ReadPlain('"', s + "\"" + rest);
    ReadCleanToken(s, rest);
  }

  /** Printing any clean value and parsing it, whatever follows, gives the value and exactly what follows. */
  lemma {:induction false} ReadOfPrint(v: Value, rest: string)
    requires Good(v) && Separated(v, rest)
    ensures ReadValue(Print(v) + rest) == Ok(v, rest)
    decreases v, 2
  {
    match v
    case Null => ReadPrintedWord(v, rest);
    case Bool(_) => ReadPrintedWord(v, rest);
    case Integer(n) => ReadPrintedInt(n, rest);
    case Str(s) => ReadPrintedString(s, rest);
    case Array(items) => ReadOfPrintArray(items, rest);
    case Object(members) => ReadOfPrintObject(members, rest);
  }

  lemma Braced(open: string, body: string, close: string, rest: string)
    ensures (open + body + close) + rest == open + (body + close + rest)
  {
  }

  lemma {:induction false} ReadOfPrintArray(items: seq<Value>, rest: string)
    requires Good(Array(items))
    ensures ReadValue(Print(Array(items)) + rest) == Ok(Array(items), rest)
    decreases items, 3
  {
    var body := PrintItems(items) + "]" + rest;
    Braced("[", PrintItems(items), "]", rest);
    ReadPlain('[', body);
    assert ReadValue(['['] + body) == ReadArray(body);
    if items == [] {
      assert body == [']'] + rest;
      ReadPlain(']', rest);
    } else {
      PrintItemsStarts(items);
      assert body == [body[0]] + body[1..];
      ReadPlain(body[0], body[1..]);
      ReadOfPrintItems(items, rest);
    }
  }

  lemma {:induction false} ReadOfPrintItems(items: seq<Value>, rest: string)
    requires items != [] && Good(Array(items))
    ensures ReadItems(PrintItems(items) + "]" + rest) == Ok(items, rest)
    decreases items, 2
  {
    var v := items[0];
    if |items| == 1 {
      assert PrintItems(items) + "]" + rest == Print(v) + ([']'] + rest);
      ReadOfPrint(v, [']'] + rest);
      ReadPlain(']', rest);
      assert items == [v];
    } else {
      var tail := PrintItems(items[1..]) + "]" + rest;
      assert PrintItems(items) + "]" + rest == Print(v) + ([','] + tail);
      ReadOfPrint(v, [','] + tail);
      ReadPlain(',', tail);
      ReadOfPrintItems(items[1..], rest);
      assert items == [v] + items[1..];
    }
  }

  /** The text of the members after the opening brace. */
  function Body(members: seq<Member>, rest: string): string
  {
    PrintMembers(members) + "}" + rest
  }

  /** What stands after the first member. */
  function AfterFirst(members: seq<Member>, rest: string): string
    requires members != []
  {
    if |members| == 1 then ['}'] + rest else [','] + Body(members[1..], rest)
  }

  lemma SplitOne(first: string, rest: string)
    ensures first + "}" + rest == first + (['}'] + rest)
  {
  }

  lemma SplitMany(first: string, more: string, rest: string)
    ensures (first + "," + more) + "}" + rest == first + ([','] + (more + "}" + rest))
  {
  }

  lemma BodySplits(members: seq<Member>, rest: string)
    requires members != []
    ensures Body(members, rest) == PrintMember(members[0]) + AfterFirst(members, rest)
  {
    if |members| == 1 {
      SplitOne(PrintMember(members[0]), rest);
    } else {
      SplitMany(PrintMember(members[0]), PrintMembers(members[1..]), rest);
    }
  }

  /** The text of a member after its opening quote, and what follows it. */
  function FromKey(m: Member, after: string): string
  {
    m.key + "\"" + ([':'] + (Print(m.val) + after))
  }

  lemma QuoteSplits(key: string, val: string, after: string)
    ensures ("\"" + key + "\":" + val) + after == ['"'] + (key + "\"" + ([':'] + (val + after)))
  {
  }

  lemma BodyQuoted(members: seq<Member>, rest: string)
    requires members != []
    ensures Body(members, rest) == ['"'] + FromKey(members[0], AfterFirst(members, rest))
  {
    BodySplits(members, rest);
    QuoteSplits(members[0].key, Print(members[0].val), AfterFirst(members, rest));
  }

  lemma {:induction false} ReadOfPrintObject(members: seq<Member>, rest: string)
    requires Good(Object(members))
    ensures ReadValue(Print(Object(members)) + rest) == Ok(Object(members), rest)
    decreases members, 3
  {
    var body := Body(members, rest);
    Braced("{", PrintMembers(members), "}", rest);
    ReadPlain('{', body);
    assert ReadValue(['{'] + body) == ReadObject(body);
    if members == [] {
      assert body == ['}'] + rest;
      ReadPlain('}', rest);
    } else {
      BodyQuoted(members, rest);
      ReadPlain('"', FromKey(members[0], AfterFirst(members, rest)));
      assert [] + members == members;
      ReadOfPrintMembers([], members, rest);
    }
  }

  lemma ReadOfPrintMember(acc: seq<Member>, m: Member, after: string)
    requires CleanToken(m.key) && ReadValue(Print(m.val) + after) == Ok(m.val, after)
    ensures ReadMembers('"', FromKey(m, after), acc) == AfterMember(after, Put(acc, m.key, m.val))
  {
    var value := Print(m.val) + after;
    ReadCleanToken(m.key, [':'] + value);
    ReadPlain(':', value);
  }

  lemma NextMember(text: string, acc: seq<Member>)
    ensures AfterMember([','] + (['"'] + text), acc) == ReadMembers('"', text, acc)
  {
    ReadPlain(',', ['"'] + text);
    ReadPlain('"', text);
  }

  lemma SortedPrefix(members: seq<Member>, more: seq<Member>)
    requires Sorted(members + more)
    ensures Sorted(members)
  {
    assert members == (members + more)[..|members|];
  }

  lemma {:induction false} ReadOfPrintMembers(acc: seq<Member>, members: seq<Member>, rest: string)
    requires members != [] && Sorted(acc + members) && Good(Object(members))
    ensures ReadMembers('"', FromKey(members[0], AfterFirst(members, rest)), acc)
         == Ok(Object(acc + members), rest)
    decreases members, 2
  {
    var m, more := members[0], members[1..];
    var acc', after := acc + [m], AfterFirst(members, rest);
    assert acc + members == acc' + more;
    SortedPrefix(acc', more);
    PutLast(acc, m.key, m.val);
    ReadOfPrint(m.val, after);
    ReadOfPrintMember(acc, m, after);
    if more == [] {
      ReadPlain('}', rest);
      assert acc' == acc + members;
    } else {
      assert Good(Object(more));
      BodyQuoted(more, rest);
      NextMember(FromKey(more[0], AfterFirst(more, rest)), acc');
      ReadOfPrintMembers(acc', more, rest);
    }
  }

  // ---------- Parse results are clean ----------

  lemma {:induction false} ReadsAreGood(s: string)
    ensures ReadValue(s).Ok? ==> Good(ReadValue(s).value)
    decreases |s|, 0
  {
    match ReadChar(s)
    case None =>
    case Some(Read(c, s1)) =>
      if c == '[' {
        ArraysAreGood(s1);
      } else if c == '{' {
        ObjectsAreGood(s1);
      } else if c == '"' {
        TokensAreClean(s1);
      }
  }

  lemma {:induction false} ArraysAreGood(s: string)
    ensures ReadArray(s).Ok? ==> Good(ReadArray(s).value)
    decreases |s|, 2
  {
    match ReadChar(s)
    case None =>
    case Some(Read(c, s1)) =>
      if c != ']' { ItemsAreGood([c] + s1); }
  }

  lemma {:induction false} ItemsAreGood(s: string)
    ensures ReadItems(s).Ok? ==> Good(Array(ReadItems(s).value))
    decreases |s|, 1
  {
    ReadsAreGood(s);
    match ReadValue(s)
    case Ok(v, s1) =>
      match ReadChar(s1) {
        case None =>
        case Some(Read(c, s2)) =>
          if c == ',' { ItemsAreGood(s2); }
      }
    case _ =>
  }

  lemma {:induction false} ObjectsAreGood(s: string)
    ensures ReadObject(s).Ok? ==> Good(ReadObject(s).value)
    decreases |s|, 2
  {
    match ReadChar(s)
    case None =>
    case Some(Read(c, s1)) =>
      if c != '}' { MembersAreGood(c, s1, []); }
  }

  lemma PutGood(acc: seq<Member>, key: string, val: Value)
    requires Good(Object(acc)) && CleanToken(key) && Good(val)
    ensures Good(Object(Put(acc, key, val)))
  {
    PutSorted(acc, key, val);
    var out := Put(acc, key, val);
    forall i | 0 <= i < |out|
      ensures CleanToken(out[i].key) && Good(out[i].val)
    {
      assert out[i] in out;
    }
  }

  lemma {:induction false} MembersAreGood(c: char, s: string, acc: seq<Member>)
    requires Good(Object(acc))
    ensures ReadMembers(c, s, acc).Ok? ==> Good(ReadMembers(c, s, acc).value)
    decreases |s|, 1
  {
    if c == '"' {
      TokensAreClean(s);
      match ReadToken(s)
      case None =>
      case Some(Read(name, s1)) =>
        match ReadChar(s1)
        case None =>
        case Some(Read(colon, s2)) =>
          ReadsAreGood(s2);
          match ReadValue(s2) {
            case Ok(v, s3) =>
              PutGood(acc, name, v);
              AfterMemberGood(s3, Put(acc, name, v));
            case _ =>
          }
    }
  }

  lemma {:induction false} AfterMemberGood(s: string, acc: seq<Member>)
    requires Good(Object(acc))
    ensures AfterMember(s, acc).Ok? ==> Good(AfterMember(s, acc).value)
    decreases |s|, 1
  {
    match ReadChar(s)
    case None =>
    case Some(Read(c, s1)) =>
      if c == ',' {
        match ReadChar(s1)
        case None =>
        case Some(Read(c', s2)) => MembersAreGood(c', s2, acc);
      }
  }

  // ---------- Main results ----------

  /** Parsing, printing and parsing again changes nothing. */
  lemma ReparseIsStable(s: string, rest: string)
    requires ReadValue(s).Ok? && Separated(ReadValue(s).value, rest)
    ensures ReadValue(Print(ReadValue(s).value) + rest) == Ok(ReadValue(s).value, rest)
  {
    ReadsAreGood(s);
    ReadOfPrint(ReadValue(s).value, rest);
  }

  /** A value the source can hold comes back from its own text exactly when all its strings and keys are clean. */
  lemma RoundTripExact(v: Value)
    requires Representable(v)
    ensures FromString(Print(v)) == Some(v) <==> Clean(v)
  {
    if Clean(v) {
      ReadOfPrint(v, []);
      assert Print(v) + [] == Print(v);
    }
    if FromString(Print(v)) == Some(v) {
      ReadsAreGood(Print(v));
    }
  }

  /** White space inside a string is lost on the way. */
  lemma SpaceIsLost()
    ensures FromString(Print(Str("a b"))) == Some(Str("ab"))
  {
    var t0: string := ['"'] + [];
    var t1 := ['b'] + t0;
    var t2 := [' '] + t1;
    var t3 := ['a'] + t2;
    assert Print(Str("a b")) == ['"'] + t3;
    ReadPlain('"', t3);
    ReadPlain('a', t2);
    assert t2[1..] == t1 && t1[1..] == t0;
    assert SkipSpace(t1) == t1 && SkipSpace(t2) == t1;
    assert ReadChar(t2) == Some(Read('b', t0));
    ReadPlain('"', []);
    assert ReadToken(t0) == Some(Read("", []));
    assert ReadToken(t2) == Prefixed(['b'], ReadToken(t0));
    assert ReadToken(t3) == Prefixed(['a'], ReadToken(t2));
    assert ['b'] + "" == "b" && ['a'] + "b" == "ab";
    assert ReadToken(t3) == Some(Read("ab", []));
  }
}
