/** JSON values of src/common/JsonValue.cpp without REAL, and how they are printed. An object is its members
    in key order, as the source's `std::map` iterates them. */
module Json {
  import opened Options

  datatype Value =
    | Null
    | Bool(b: bool)
    | Integer(n: int)
    | Str(s: string)
    | Array(items: seq<Value>)
    | Object(members: seq<Member>)

  datatype Member = Member(key: string, val: Value)

  const INT64_MIN: int := -0x8000_0000_0000_0000
  const INT64_MAX: int := 0x7fff_ffff_ffff_ffff

  /** `isspace` in the classic locale. */
  predicate IsSpace(c: char)
  {
    c == ' ' || '\t' <= c <= '\r'
  }

  predicate IsDigit(c: char)
  {
    '0' <= c <= '9'
  }

  function DigitChar(d: nat): (c: char)
    requires d < 10
    ensures IsDigit(c)
  {
    ('0' as int + d) as char
  }

  function PrintNat(n: nat): (text: string)
    ensures |text| > 0
  {
    if n < 10 then [DigitChar(n)] else PrintNat(n / 10) + [DigitChar(n % 10)]
  }

  function PrintInt(n: int): string
  {
    if n < 0 then "-" + PrintNat(-n) else PrintNat(n)
  }

  function Print(v: Value): string
    decreases v, 0
  {
    match v
    case Null => "null"
    case Bool(b) => if b then "true" else "false"
    case Integer(n) => PrintInt(n)
    case Str(s) => "\"" + s + "\""
    case Array(items) => "[" + PrintItems(items) + "]"
    case Object(members) => "{" + PrintMembers(members) + "}"
  }

  function PrintItems(items: seq<Value>): string
    decreases items, 1
  {
    if items == [] then ""
    else if |items| == 1 then Print(items[0])
    else Print(items[0]) + "," + PrintItems(items[1..])
  }

  function PrintMember(m: Member): string
    decreases m, 1
  {
    "\"" + m.key + "\":" + Print(m.val)
  }

  function PrintMembers(members: seq<Member>): string
    decreases members, 1
  {
    if members == [] then ""
    else if |members| == 1 then PrintMember(members[0])
    else PrintMember(members[0]) + "," + PrintMembers(members[1..])
  }

  // ---------- Key order ----------

  /** `std::string` comparison: lexicographic. */
  predicate Less(a: string, b: string)
  {
    b != [] && (a == [] || a[0] < b[0] || (a[0] == b[0] && Less(a[1..], b[1..])))
  }

  predicate Sorted(members: seq<Member>)
  {
    forall i, j :: 0 <= i < j < |members| ==> Less(members[i].key, members[j].key)
  }

  /** `value[name] = val` on the ordered map: replaces or inserts. */
  function Put(members: seq<Member>, key: string, val: Value): seq<Member>
  {
    if members == [] then [Member(key, val)]
    else if members[0].key == key then [Member(key, val)] + members[1..]
    else if Less(key, members[0].key) then [Member(key, val)] + members
    else [members[0]] + Put(members[1..], key, val)
  }

  lemma {:induction false} LessTransitive(a: string, b: string, c: string)
    requires Less(a, b) && Less(b, c)
    ensures Less(a, c)
  {
    if a != [] && a[0] == b[0] == c[0] { LessTransitive(a[1..], b[1..], c[1..]); }
  }

  lemma {:induction false} LessTotal(a: string, b: string)
    ensures a == b || Less(a, b) || Less(b, a)
  {
    if a != [] && b != [] && a[0] == b[0] {
      LessTotal(a[1..], b[1..]);
      assert a == [a[0]] + a[1..] && b == [b[0]] + b[1..];
    }
  }

  lemma {:induction false} LessIrreflexive(a: string, b: string)
    requires Less(a, b)
    ensures a != b && !Less(b, a)
  {
    if a != [] && a[0] == b[0] { LessIrreflexive(a[1..], b[1..]); }
  }

  // ---------- Clean values ----------

  /** No white space, no bare quote, and every backslash followed by the character it escapes. */
  predicate CleanToken(s: string)
  {
    s == [] ||
    if s[0] == '\\' then |s| >= 2 && !IsSpace(s[1]) && CleanToken(s[2..])
    else s[0] != '"' && !IsSpace(s[0]) && CleanToken(s[1..])
  }

  /** What the source's types can hold: 64-bit integers and ordered keys. */
  predicate Representable(v: Value)
    decreases v
  {
    match v
    case Integer(n) => INT64_MIN <= n <= INT64_MAX
    case Array(items) => forall i :: 0 <= i < |items| ==> Representable(items[i])
    case Object(members) =>
      Sorted(members) && forall i :: 0 <= i < |members| ==> Representable(members[i].val)
    case _ => true
  }

  /** Every string and key is a clean token. */
  predicate Clean(v: Value)
    decreases v
  {
    match v
    case Str(s) => CleanToken(s)
    case Array(items) => forall i :: 0 <= i < |items| ==> Clean(items[i])
    case Object(members) =>
      forall i :: 0 <= i < |members| ==> CleanToken(members[i].key) && Clean(members[i].val)
    case _ => true
  }

  lemma {:induction false} PutSorted(members: seq<Member>, key: string, val: Value)
    requires Sorted(members)
    ensures Sorted(Put(members, key, val))
    ensures forall m :: m in Put(members, key, val) ==> m == Member(key, val) || m in members
  {
    if members != [] && members[0].key != key && !Less(key, members[0].key) {
      PutSorted(members[1..], key, val);
      LessTotal(key, members[0].key);
      var tail := Put(members[1..], key, val);
      forall j | 0 <= j < |tail|
        ensures Less(members[0].key, tail[j].key)
      {
        assert tail[j] in tail;
      }
    } else if members != [] && members[0].key != key {
      forall j | 0 <= j < |members|
        ensures Less(key, members[j].key)
      {
        if j > 0 { LessTransitive(key, members[0].key, members[j].key); }
      }
    }
  }

  /** A key above all others goes to the end. */
  lemma {:induction false} PutLast(members: seq<Member>, key: string, val: Value)
    requires Sorted(members + [Member(key, val)])
    ensures Put(members, key, val) == members + [Member(key, val)]
  {
    if members != [] {
      var all := members + [Member(key, val)];
      assert all[0] == members[0] && all[|members|] == Member(key, val);
      LessIrreflexive(members[0].key, key);
      assert all[1..] == members[1..] + [Member(key, val)];
      PutLast(members[1..], key, val);
    }
  }

  // ---------- The map ----------

  /** What the map holds for a key. */
  function Lookup(members: seq<Member>, key: string): Option<Value>
  {
    if members == [] then None
    else if members[0].key == key then Some(members[0].val)
    else Lookup(members[1..], key)
  }

  /** After `value[key] = val` the map holds `val` for the key and what it held for every other. */
  lemma {:induction false} PutLookup(members: seq<Member>, key: string, val: Value, other: string)
    ensures Lookup(Put(members, key, val), other) == if other == key then Some(val) else Lookup(members, other)
  {
    var out := Put(members, key, val);
    if members == [] {
      assert out[1..] == [];
    } else if members[0].key == key || Less(key, members[0].key) {
      assert out[1..] == if members[0].key == key then members[1..] else members;
    } else {
      PutLookup(members[1..], key, val, other);
      assert out[1..] == Put(members[1..], key, val);
    }
  }

  /** The first difference of `a` and `b` is at `i`, where `a` has the lower character. */
  ghost predicate LowerAt(a: string, b: string, i: nat)
  {
    i < |a| && i < |b| && a[..i] == b[..i] && (a[i] as int) < b[i] as int
  }

  lemma LowerTail(a: string, b: string, i: nat)
    requires a != [] && b != [] && a[0] == b[0]
    ensures LowerAt(a, b, i + 1) <==> LowerAt(a[1..], b[1..], i)
  {
    if i < |a[1..]| && i < |b[1..]| {
      assert a[..i + 1] == [a[0]] + a[1..][..i] && b[..i + 1] == [b[0]] + b[1..][..i];
      assert a[1..][..i] == a[..i + 1][1..] && b[1..][..i] == b[..i + 1][1..];
    }
  }

  /** Keys are in dictionary order: the first difference decides, and a beginning comes before the whole. */
  lemma {:induction false} LessExact(a: string, b: string)
    ensures Less(a, b) <==> a < b || exists i: nat :: LowerAt(a, b, i)
  {
    if a != [] && b != [] {
      if a[0] == b[0] {
        var a', b' := a[1..], b[1..];
        LessExact(a', b');
        assert a < b <==> a' < b' by { assert a == [a[0]] + a' && b == [b[0]] + b'; }
        if i: nat :| LowerAt(a', b', i) { LowerTail(a, b, i); }
        if i: nat :| LowerAt(a, b, i) {
          assert i > 0;
          LowerTail(a, b, i - 1);
        }
      } else {
        assert LowerAt(a, b, 0) <==> a[0] < b[0];
        forall i: nat | i > 0
          ensures !LowerAt(a, b, i)
        {
          if i <= |a| && i <= |b| { assert a[..i][0] == a[0] && b[..i][0] == b[0]; }
        }
      }
    }
  }
}
