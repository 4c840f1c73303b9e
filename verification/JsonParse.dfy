/** What the readers of src/common/JsonValue.cpp make of a text: each function maps the text still to be read
    to a result and the text left. */
module JsonParse {
  import opened Options
  import opened Json

  /** `RealNumber` is a number with a decimal point, whose value is not part of the model. */
  datatype Parsed<+T> = Ok(value: T, rest: string) | Error | RealNumber

  datatype Read<+T> = Read(value: T, rest: string)

  function SkipSpace(s: string): (t: string)
    ensures |t| <= |s|
    ensures t != [] ==> !IsSpace(t[0])
  {
    if s != [] && IsSpace(s[0]) then SkipSpace(s[1..]) else s
  }

  /** Formatted extraction of one character: leading white space is dropped, wherever it is. */
  function ReadChar(s: string): (r: Option<Read<char>>)
    ensures r.Some? ==> |r.value.rest| < |s| && !IsSpace(r.value.value)
  {
    var t := SkipSpace(s);
    if t == [] then None else Some(Read(t[0], t[1..]))
  }

  /** `readStringToken`: up to the closing quote, escapes kept as written. */
  function ReadToken(s: string): (r: Option<Read<string>>)
    ensures r.Some? ==> |r.value.rest| < |s|
    decreases |s|
  {
    match ReadChar(s)
    case None => None
    case Some(Read(c, s1)) =>
      if c == '"' then Some(Read("", s1))
      else if c == '\\' then
        match ReadChar(s1)
        case None => None
        case Some(Read(d, s2)) => Prefixed([c, d], ReadToken(s2))
      else Prefixed([c], ReadToken(s1))
  }

  function Prefixed(p: string, r: Option<Read<string>>): Option<Read<string>>
  {
    match r
    case None => None
    case Some(Read(v, rest)) => Some(Read(p + v, rest))
  }

  predicate InNumber(c: char)
  {
    IsDigit(c) || c == '.'
  }

  /** Moves the leading run of digits and points from `s` to `run`. */
  function TakeRun(run: string, s: string): (r: (string, string))
    ensures |r.1| <= |s|
    decreases s
  {
    if s != [] && InNumber(s[0]) then TakeRun(run + [s[0]], s[1..]) else (run, s)
  }

  function DigitValue(c: char): (d: nat)
    requires IsDigit(c)
    ensures d < 10
  {
    c as int - '0' as int
  }

  function ParseNat(text: string): (n: int)
    requires forall i :: 0 <= i < |text| ==> IsDigit(text[i])
    ensures n >= 0
  {
    if text == [] then 0 else ParseNat(text[..|text| - 1]) * 10 + DigitValue(text[|text| - 1])
  }

  function Clamp(n: int): int
  {
    if n < INT64_MIN then INT64_MIN else if n > INT64_MAX then INT64_MAX else n
  }

  /** Stream extraction of a 64-bit integer: a lone sign gives zero, out of range gives the nearest limit. */
  function ToInteger(c: char, digits: string): int
    requires c == '-' || IsDigit(c)
    requires forall i :: 0 <= i < |digits| ==> IsDigit(digits[i])
  {
    if c == '-' then Clamp(-ParseNat(digits)) else Clamp(ParseNat([c] + digits))
  }

  predicate LeadingZero(c: char, digits: string)
  {
    digits != [] && (c == '0' || (c == '-' && digits[0] == '0'))
  }

  function Dots(s: string): nat
  {
    if s == [] then 0 else (if s[0] == '.' then 1 else 0) + Dots(s[1..])
  }

  ghost predicate AllInNumber(s: string)
  {
    forall i :: 0 <= i < |s| ==> InNumber(s[i])
  }

  lemma {:induction false} TakeRunInNumber(run: string, s: string)
    requires AllInNumber(run)
    ensures AllInNumber(TakeRun(run, s).0)
    decreases s
  {
    if s != [] && InNumber(s[0]) { TakeRunInNumber(run + [s[0]], s[1..]); }
  }

  lemma {:induction false} NoDots(s: string)
    requires Dots(s) == 0 && AllInNumber(s)
    ensures forall i :: 0 <= i < |s| ==> IsDigit(s[i])
  {
    if s != [] {
      NoDots(s[1..]);
      assert s == [s[0]] + s[1..];
    }
  }

  /** `readNumber` after its first character `c`. */
  function ReadNumber(c: char, s: string): (p: Parsed<Value>)
    requires c == '-' || IsDigit(c)
    ensures p.Ok? ==> |p.rest| <= |s|
  {
    var (run, rest) := TakeRun("", s);
    if Dots(run) > 1 then Error
    else if Dots(run) == 1 then RealNumber
    else if LeadingZero(c, run) then Error
    else
      TakeRunInNumber("", s);
      NoDots(run);
      Ok(Integer(ToInteger(c, run)), rest)
  }

  function ReadWord(word: string, s: string, v: Value): (p: Parsed<Value>)
    ensures p.Ok? ==> |p.rest| <= |s|
  {
    if word <= s then Ok(v, s[|word|..]) else Error
  }

  /** `operator>>`. */
  function ReadValue(s: string): (p: Parsed<Value>)
    ensures p.Ok? ==> |p.rest| < |s|
    decreases |s|, 0
  {
    match ReadChar(s)
    case None => Error
    case Some(Read(c, s1)) =>
      if c == '[' then ReadArray(s1)
      else if c == 't' then ReadWord("rue", s1, Bool(true))
      else if c == 'f' then ReadWord("alse", s1, Bool(false))
      else if c == '-' || IsDigit(c) then ReadNumber(c, s1)
      else if c == 'n' then ReadWord("ull", s1, Null)
      else if c == '{' then ReadObject(s1)
      else if c == '"' then
        match ReadToken(s1)
        case None => Error
        case Some(Read(v, rest)) => Ok(Str(v), rest)
      else Error
  }

  /** `readArray` after the bracket. */
  function ReadArray(s: string): (p: Parsed<Value>)
    ensures p.Ok? ==> |p.rest| < |s|
    decreases |s|, 2
  {
    match ReadChar(s)
    case None => Error
    case Some(Read(c, s1)) =>
      if c == ']' then Ok(Array([]), s1)
      else
        match ReadItems([c] + s1)
        case Ok(items, rest) => Ok(Array(items), rest)
        case Error => Error
        case RealNumber => RealNumber
  }

  /** The element loop of `readArray`. */
  function ReadItems(s: string): (p: Parsed<seq<Value>>)
    ensures p.Ok? ==> |p.rest| < |s|
    decreases |s|, 1
  {
    match ReadValue(s)
    case Error => Error
    case RealNumber => RealNumber
    case Ok(v, s1) =>
      match ReadChar(s1)
      case None => Error
      case Some(Read(c, s2)) =>
        if c == ']' then Ok([v], s2)
        else if c != ',' then Error
        else
          match ReadItems(s2)
          case Ok(vs, rest) => Ok([v] + vs, rest)
          case Error => Error
          case RealNumber => RealNumber
  }

  /** `readObject` after the brace. */
  function ReadObject(s: string): (p: Parsed<Value>)
    ensures p.Ok? ==> |p.rest| < |s|
    decreases |s|, 2
  {
    match ReadChar(s)
    case None => Error
    case Some(Read(c, s1)) =>
      if c == '}' then Ok(Object([]), s1) else ReadMembers(c, s1, [])
  }

  /** The member loop of `readObject`: `c` is the character just read, `acc` the map so far. */
  function ReadMembers(c: char, s: string, acc: seq<Member>): (p: Parsed<Value>)
    ensures p.Ok? ==> |p.rest| < |s|
    decreases |s|, 1
  {
    if c != '"' then Error
    else
      match ReadToken(s)
      case None => Error
      case Some(Read(name, s1)) =>
        match ReadChar(s1)
        case None => Error
        case Some(Read(colon, s2)) =>
          if colon != ':' then Error
          else
            match ReadValue(s2)
            case Error => Error
            case RealNumber => RealNumber
            case Ok(v, s3) => AfterMember(s3, Put(acc, name, v))
  }

  /** What follows a member: the closing brace, or a comma and the next character. */
  function AfterMember(s: string, acc: seq<Member>): (p: Parsed<Value>)
    ensures p.Ok? ==> |p.rest| < |s|
    decreases |s|, 1
  {
    match ReadChar(s)
    case None => Error
    case Some(Read(c, s1)) =>
      if c == '}' then Ok(Object(acc), s1)
      else if c != ',' then Error
      else
        match ReadChar(s1)
        case None => Error
        case Some(Read(c', s2)) => ReadMembers(c', s2, acc)
  }

  /** `fromString`: text after the value is ignored; nothing comes back when the source throws. */
  function FromString(s: string): Option<Value>
  {
    match ReadValue(s)
    case Ok(v, _) => Some(v)
    case _ => None
  }
}
