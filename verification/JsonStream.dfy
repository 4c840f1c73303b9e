/** The reading and writing code of src/common/JsonValue.cpp, step by step over a stream position, against
    the functions of JsonParse and Json. */
module JsonStream {
  import opened Options
  import opened Json
  import opened JsonParse

  /** `Throws` is an exception of the source; `Real` a number with a point, which the model stops at. */
  datatype Outcome<+T> = Value(value: T) | Throws | Real

  ghost predicate Agrees<T>(r: Option<T>, rest: string, o: Option<Read<T>>)
  {
    match o
    case None => r == None
    case Some(Read(v, s)) => r == Some(v) && rest == s
  }

  ghost predicate Matches<T>(r: Outcome<T>, rest: string, p: Parsed<T>)
  {
    match p
    case Ok(v, s) => r == Value(v) && rest == s
    case Error => r == Throws
    case RealNumber => r == Real
  }

  class Input {
    const text: string
    var pos: nat

    constructor (text: string)
      ensures this.text == text && pos == 0
    {
      this.text, pos := text, 0;
    }

    ghost predicate Valid()
      reads this
    {
      pos <= |text|
    }

    ghost function Rest(): string
      requires Valid()
      reads this
    {
      text[pos..]
    }

    /** `readChar`: formatted extraction skips white space first; `None` is the exception at the end. The
        loop of `readNonWsChar` around it never repeats, so the two are one. */
    method ReadOne() returns (r: Option<char>)
      requires Valid()
      modifies this
      ensures Valid() && Agrees(r, Rest(), ReadChar(old(Rest())))
      ensures r.Some? ==> pos > old(pos) && text[pos - 1] == r.value
    {
      while pos < |text| && IsSpace(text[pos])
        invariant old(pos) <= pos <= |text|
        invariant SkipSpace(Rest()) == SkipSpace(old(Rest()))
        decreases |text| - pos
      {
        assert Rest()[0] == text[pos] && Rest()[1..] == text[pos + 1..];
        pos := pos + 1;
      }
      assert pos < |text| ==> Rest()[0] == text[pos];
      assert SkipSpace(Rest()) == Rest();
      if pos == |text| {
        return None;
      }
      var c := text[pos];
      assert Rest()[1..] == text[pos + 1..];
      pos := pos + 1;
      return Some(c);
    }

    /** `readStringToken`. */
    method ReadStringToken() returns (r: Option<string>)
      requires Valid()
      modifies this
      ensures Valid() && Agrees(r, Rest(), ReadToken(old(Rest())))
    {
      var value := "";
      AddNothing(ReadToken(Rest()));
      while true
        invariant Valid()
        invariant Prefixed(value, ReadToken(Rest())) == ReadToken(old(Rest()))
        decreases |text| - pos
      {
        ghost var before := Rest();
        var c := ReadOne();
        if c == None {
          return None;
        }
        if c.value == '"' {
          assert value + "" == value;
          return Some(value);
        }
        if c.value == '\\' {
          value := value + [c.value];
          c := ReadOne();
          if c == None {
            return None;
          }
          AddTwice(value[..|value| - 1], ['\\', c.value], ReadToken(Rest()));
          assert value + [c.value] == value[..|value| - 1] + ['\\', c.value];
        } else {
          AddTwice(value, [c.value], ReadToken(Rest()));
        }
        value := value + [c.value];
      }
    }

    /** `readNumber` after its first character. */
    method ReadInteger(first: char) returns (r: Outcome<Json.Value>)
      requires Valid() && (first == '-' || IsDigit(first))
      modifies this
      ensures Valid() && Matches(r, Rest(), ReadNumber(first, old(Rest())))
    {
      var run, dots := "", 0;
      while pos < |text| && (IsDigit(text[pos]) || text[pos] == '.')
        invariant Valid()
        invariant TakeRun(run, Rest()) == TakeRun("", old(Rest())) && dots == Dots(run)
        decreases |text| - pos
      {
        assert Rest()[0] == text[pos] && Rest()[1..] == text[pos + 1..];
        DotsAppend(run, text[pos]);
        if text[pos] == '.' {
          dots := dots + 1;
        }
        run := run + [text[pos]];
        pos := pos + 1;
      }
      assert pos < |text| ==> Rest()[0] == text[pos];
      if dots > 0 {
        if dots > 1 {
          return Throws;
        }
        return Real;
      }
      if |run| > 0 && (first == '0' || (first == '-' && run[0] == '0')) {
        return Throws;
      }
      TakeRunInNumber("", old(Rest()));
      NoDots(run);
      return Value(Integer(ToInteger(first, run)));
    }

    /** `readTrue`, `readFalse`, `readNull`: an unformatted read of the rest of the word. */
    method ReadRest(word: string, v: Json.Value) returns (r: Outcome<Json.Value>)
      requires Valid()
      modifies this
      ensures Valid() && Matches(r, Rest(), ReadWord(word, old(Rest()), v))
    {
      if |text| - pos < |word| {
        pos := |text|;
        return Throws;
      }
      var data := text[pos..pos + |word|];
      assert data == Rest()[..|word|];
      assert Rest()[|word|..] == text[pos + |word|..];
      pos := pos + |word|;
      if data != word {
        return Throws;
      }
      return Value(v);
    }

    /** `operator>>`. */
    method Parse() returns (r: Outcome<Json.Value>)
      requires Valid()
      modifies this
      ensures Valid() && Matches(r, Rest(), ReadValue(old(Rest())))
      decreases |text| - pos, 0
    {
      var o := ReadOne();
      if o == None {
        return Throws;
      }
      var c := o.value;
      if c == '[' {
        r := ParseArray();
      } else if c == 't' {
        r := ReadRest("rue", Bool(true));
      } else if c == 'f' {
        r := ReadRest("alse", Bool(false));
      } else if c == '-' || IsDigit(c) {
        r := ReadInteger(c);
      } else if c == 'n' {
        r := ReadRest("ull", Null);
      } else if c == '{' {
        r := ParseObject();
      } else if c == '"' {
        var token := ReadStringToken();
        if token == None {
          return Throws;
        }
        return Value(Str(token.value));
      } else {
        return Throws;
      }
    }

    /** `readArray`: one character of lookahead, put back unless it closes the array. */
    method ParseArray() returns (r: Outcome<Json.Value>)
      requires Valid()
      modifies this
      ensures Valid() && Matches(r, Rest(), ReadArray(old(Rest())))
      decreases |text| - pos, 2
    {
      var o := ReadOne();
      if o == None {
        return Throws;
      }
      if o.value == ']' {
        return Value(Array([]));
      }
      ghost var after := Rest();
      pos := pos - 1;
      assert Rest() == [o.value] + after;
      var items := ParseItems();
      match items
      case Value(vs) => return Value(Array(vs));
      case Throws => return Throws;
      case Real => return Real;
    }

    /** The element loop of `readArray`. */
    method ParseItems() returns (r: Outcome<seq<Json.Value>>)
      requires Valid()
      modifies this
      ensures Valid() && Matches(r, Rest(), ReadItems(old(Rest())))
      decreases |text| - pos, 1
    {
      var value: seq<Json.Value> := [];
      AppendNone(ReadItems(Rest()));
      while true
        invariant Valid() && pos >= old(pos)
        invariant ItemsThen(value, ReadItems(Rest())) == ReadItems(old(Rest()))
        decreases |text| - pos
      {
        var v := Parse();
        if !v.Value? {
          return if v == Real then Real else Throws;
        }
        var o := ReadOne();
        if o == None {
          return Throws;
        }
        if o.value == ']' {
          return Value(value + [v.value]);
        }
        if o.value != ',' {
          return Throws;
        }
        AppendItem(value, v.value, ReadItems(Rest()));
        value := value + [v.value];
      }
    }

    /** `readObject`. */
    method ParseObject() returns (r: Outcome<Json.Value>)
      requires Valid()
      modifies this
      ensures Valid() && Matches(r, Rest(), ReadObject(old(Rest())))
      decreases |text| - pos, 2
    {
      var value: seq<Member> := [];
      var o := ReadOne();
      if o == None {
        return Throws;
      }
      var c := o.value;
      if c != '}' {
        ghost var whole := ReadMembers(c, Rest(), []);
        while true
          invariant Valid() && pos > old(pos)
          invariant ReadMembers(c, Rest(), value) == whole
          decreases |text| - pos
        {
          if c != '"' {
            return Throws;
          }
          var name := ReadStringToken();
          if name == None {
            return Throws;
          }
          o := ReadOne();
          if o == None || o.value != ':' {
            return Throws;
          }
          var v := Parse();
          if v == Throws {
            return Throws;
          }
          if v == Real {
            return Real;
          }
          value := Put(value, name.value, v.value);
          o := ReadOne();
          if o == None {
            return Throws;
          }
          if o.value == '}' {
            break;
          }
          if o.value != ',' {
            return Throws;
          }
          o := ReadOne();
          if o == None {
            return Throws;
          }
          c := o.value;
        }
      }
      return Value(Object(value));
    }
  }

  /** `fromString`. */
  method ParseText(source: string) returns (r: Option<Json.Value>)
    ensures r == FromString(source)
  {
    var input := new Input(source);
    assert input.Rest() == source;
    var o := input.Parse();
    return if o.Value? then Some(o.value) else None;
  }

  lemma AddNothing(o: Option<Read<string>>)
    ensures Prefixed("", o) == o
  {
    if o.Some? { assert "" + o.value.value == o.value.value; }
  }

  lemma AddTwice(a: string, b: string, o: Option<Read<string>>)
    ensures Prefixed(a, Prefixed(b, o)) == Prefixed(a + b, o)
  {
    if o.Some? { assert a + (b + o.value.value) == (a + b) + o.value.value; }
  }

  lemma {:induction false} DotsAppend(s: string, c: char)
    ensures Dots(s + [c]) == Dots(s) + if c == '.' then 1 else 0
  {
    if s == [] {
      assert s + [c] == [c];
    } else {
      DotsAppend(s[1..], c);
      assert (s + [c])[1..] == s[1..] + [c];
    }
  }

  ghost function ItemsThen(acc: seq<Json.Value>, p: Parsed<seq<Json.Value>>): Parsed<seq<Json.Value>>
  {
    match p
    case Ok(vs, rest) => Ok(acc + vs, rest)
    case Error => Error
    case RealNumber => RealNumber
  }

  lemma AppendNone(p: Parsed<seq<Json.Value>>)
    ensures ItemsThen([], p) == p
  {
    if p.Ok? { assert [] + p.value == p.value; }
  }

  lemma AppendItem(acc: seq<Json.Value>, v: Json.Value, p: Parsed<seq<Json.Value>>)
    ensures ItemsThen(acc, ItemsThen([v], p)) == ItemsThen(acc + [v], p)
  {
    if p.Ok? { assert acc + ([v] + p.value) == (acc + [v]) + p.value; }
  }

  // ---------- Printing ----------

  class Output {
    var text: string

    constructor ()
      ensures text == ""
    {
      text := "";
    }

    /** `operator<<`. */
    method Write(v: Json.Value)
      modifies this
      ensures text == old(text) + Print(v)
      decreases v
    {
      match v {
        case Null => text := text + "null";
        case Bool(b) => text := text + if b then "true" else "false";
        case Integer(n) => text := text + PrintInt(n);
        case Str(s) => text := text + ("\"" + s + "\"");
        case Array(items) => WriteArray(items, v);
        case Object(members) => WriteObject(members, v);
      }
    }

    method WriteArray(items: seq<Json.Value>, ghost v: Json.Value)
      requires v == Array(items)
      modifies this
      ensures text == old(text) + Print(v)
      decreases v, 0
    {
      ghost var was := text;
      text := text + "[";
      if |items| > 0 {
        Write(items[0]);
        FirstItem(was + "[", items);
        for i := 1 to |items|
          invariant text + ItemsLeft(items, i) == was + "[" + PrintItems(items)
        {
          ghost var before := text;
          text := text + ",";
          Write(items[i]);
          ItemWritten(before, items, i);
        }
      }
      assert text == was + "[" + PrintItems(items);
      text := text + "]";
      Enclose(was, "[", PrintItems(items), "]");
    }

    method WriteObject(members: seq<Member>, ghost v: Json.Value)
      requires v == Object(members)
      modifies this
      ensures text == old(text) + Print(v)
      decreases v, 0
    {
      ghost var was := text;
      text := text + "{";
      if |members| > 0 {
        text := text + ("\"" + members[0].key + "\":");
        Write(members[0].val);
        FirstMember(was + "{", members);
        for i := 1 to |members|
          invariant text + MembersLeft(members, i) == was + "{" + PrintMembers(members)
        {
          ghost var before := text;
          text := text + (",\"" + members[i].key + "\":");
          Write(members[i].val);
          MemberWritten(before, members, i);
        }
      }
      assert text == was + "{" + PrintMembers(members);
      text := text + "}";
      Enclose(was, "{", PrintMembers(members), "}");
    }
  }

  /** `toString`. */
  method PrintText(v: Json.Value) returns (text: string)
    ensures text == Print(v)
  {
    var out := new Output();
    out.Write(v);
    text := out.text;
  }

  lemma Enclose(was: string, open: string, body: string, close: string)
    ensures was + open + body + close == was + (open + body + close)
  {
  }

  ghost function ItemsLeft(items: seq<Json.Value>, i: nat): string
    requires i <= |items|
  {
    if i == |items| then "" else "," + PrintItems(items[i..])
  }

  ghost function MembersLeft(members: seq<Member>, i: nat): string
    requires i <= |members|
  {
    if i == |members| then "" else "," + PrintMembers(members[i..])
  }

  lemma CommaJoins(before: string, first: string, more: string)
    ensures before + "," + first + ("," + more) == before + ("," + (first + "," + more))
    ensures before + "," + first + "" == before + ("," + first)
    ensures before + first + ("," + more) == before + (first + "," + more)
    ensures before + first + "" == before + first
  {
  }

  lemma FirstItem(before: string, items: seq<Json.Value>)
    requires items != []
    ensures before + Print(items[0]) + ItemsLeft(items, 1) == before + PrintItems(items)
  {
    CommaJoins(before, Print(items[0]), PrintItems(items[1..]));
  }

  lemma ItemWritten(before: string, items: seq<Json.Value>, i: nat)
    requires 0 < i < |items|
    ensures before + "," + Print(items[i]) + ItemsLeft(items, i + 1) == before + ItemsLeft(items, i)
  {
    assert items[i..][0] == items[i] && items[i..][1..] == items[i + 1..];
    CommaJoins(before, Print(items[i]), PrintItems(items[i + 1..]));
  }

  lemma KeyJoins(before: string, key: string, val: string)
    ensures before + ("\"" + key + "\":") + val == before + ("\"" + key + "\":" + val)
    ensures before + (",\"" + key + "\":") + val == before + "," + ("\"" + key + "\":" + val)
  {
  }

  lemma FirstMember(before: string, members: seq<Member>)
    requires members != []
    ensures before + ("\"" + members[0].key + "\":") + Print(members[0].val) + MembersLeft(members, 1)
         == before + PrintMembers(members)
  {
    KeyJoins(before, members[0].key, Print(members[0].val));
    CommaJoins(before, PrintMember(members[0]), PrintMembers(members[1..]));
  }

  lemma MemberWritten(before: string, members: seq<Member>, i: nat)
    requires 0 < i < |members|
    ensures before + (",\"" + members[i].key + "\":") + Print(members[i].val) + MembersLeft(members, i + 1)
         == before + MembersLeft(members, i)
  {
    assert members[i..][0] == members[i] && members[i..][1..] == members[i + 1..];
    KeyJoins(before, members[i].key, Print(members[i].val));
    CommaJoins(before, PrintMember(members[i]), PrintMembers(members[i + 1..]));
  }
}
