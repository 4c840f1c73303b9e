/** The seven-bits-per-byte integers of src/common/binary.h (`fromVarint`, `toVarint`). */
module Varint {
  import opened Octets
  import opened Numerals

  /** The canonical encoding: least significant group first, high bit set on all but the last. */
  function Encoded(v: nat): (s: seq<byte>)
    ensures |s| > 0
  {
    if v < 0x80 then [v] else [v % 0x80 + 0x80] + Encoded(v / 0x80)
  }

  /** How a read ends. `Stopped` is a byte with its high bit clear; `RanOut` is the end of the input,
      which the reader also reports as success. */
  datatype Outcome =
    | Stopped(value: nat, len: nat)
    | RanOut(value: nat, len: nat)
    | Overflow
    | NonCanonical

  function Prepend(low: nat, o: Outcome): Outcome
  {
    match o
    case Stopped(v, k) => Stopped(low + 0x80 * v, k + 1)
    case RanOut(v, k) => RanOut(low + 0x80 * v, k + 1)
    case Overflow => Overflow
    case NonCanonical => NonCanonical
  }

  predicate TooWide(bits: nat, shift: nat, b: byte)
    requires shift < bits
  {
    shift + 7 >= bits && b >= Pow(2, bits - shift)
  }

  /** What a `bits`-wide read makes of `s` once `shift` bits are already in. */
  function ReadAt(bits: nat, shift: nat, s: seq<byte>): (o: Outcome)
    requires shift < bits
    decreases s
  {
    if s == [] then RanOut(0, 0)
    else if TooWide(bits, shift, s[0]) then Overflow
    else if s[0] == 0 && shift != 0 then NonCanonical
    else if s[0] < 0x80 then Stopped(s[0], 1)
    else
      (GroupsFit(bits, shift, s[0]);
       Prepend(s[0] - 0x80, ReadAt(bits, shift + 7, s[1..])))
  }

  function Read(bits: nat, s: seq<byte>): Outcome
    requires bits > 0
  {
    ReadAt(bits, 0, s)
  }

  /** A byte that asks for more input is only accepted when another whole group still fits. */
  lemma GroupsFit(bits: nat, shift: nat, b: byte)
    requires shift < bits && !TooWide(bits, shift, b) && b >= 0x80
    ensures shift + 7 < bits
  {
    if shift + 7 >= bits {
      SmallPowers();
      PowMonotone(2, bits - shift, 7);
      assert false;
    }
  }

  /** `fromVarint`. */
  method FromVarint(t: nat) returns (oss: seq<byte>)
    requires t < 0x1_0000_0000_0000_0000
    ensures oss == Encoded(t)
  {
    oss := [];
    var v := t;
    while v >= 0x80
      invariant oss + Encoded(v) == Encoded(t)
    {
      assert Encoded(v) == [v % 0x80 + 0x80] + Encoded(v / 0x80);
      assert oss + ([v % 0x80 + 0x80] + Encoded(v / 0x80)) == (oss + [v % 0x80 + 0x80]) + Encoded(v / 0x80);
      oss := oss + [v % 0x80 + 0x80];
      v := v / 0x80;
    }
    oss := oss + [v];
  }

  /** `read` groups already hold `i`; the rest of the input ends as `o` says. */
  ghost function Finish(i: nat, shift: nat, read: nat, o: Outcome): Outcome
  {
    match o
    case Stopped(v, k) => Stopped(i + v * Pow(2, shift), read + k)
    case RanOut(v, k) => RanOut(i + v * Pow(2, shift), read + k)
    case Overflow => Overflow
    case NonCanonical => NonCanonical
  }

  lemma FinishStep(i: nat, shift: nat, read: nat, low: nat, o: Outcome)
    ensures Finish(i, shift, read, Prepend(low, o)) == Finish(i + low * Pow(2, shift), shift + 7, read + 1, o)
  {
    if o.Stopped? || o.RanOut? {
      WeightStep(shift);
      Regroup(low, o.value, Pow(2, shift));
    }
  }

  lemma WeightStep(shift: nat)
    ensures Pow(2, shift + 7) == 0x80 * Pow(2, shift)
  {
    SmallPowers();
    PowAdd(2, 7, shift);
  }

  lemma Regroup(low: nat, v: nat, p: nat)
    ensures (low + 0x80 * v) * p == low * p + v * (0x80 * p)
  {
    Distribute(low, 0x80 * v, p);
    MulAssoc(v, 0x80, p);
  }

  lemma NoWrap(i: nat, low: nat, p: nat, q: nat, m: nat)
    requires i < p && low < q && q * p <= m
    ensures low * p < m && Rem(low * p, m) == low * p
    ensures i + low * p < q * p
  {
    MulMonotone(low + 1, q, p);
    SmallRem(low * p, m);
  }

  lemma SmallRem(x: nat, m: nat)
    requires x < m
    ensures Rem(x, m) == x
  {
    QuotUnique(0, m, x);
  }

  /** `i |= (byte & 0x7f) << shift` in a type of `bits` bits. The or adds, because the new group lies above
      every bit already set; the shifted group is cut to the width of the type. */
  function OrGroup(bits: nat, shift: nat, i: nat, b: byte): nat
  {
    PowPositive(2, bits);
    i + Rem(b % 0x80 * Pow(2, shift), Pow(2, bits))
  }

  lemma Weights(bits: nat, shift: nat)
    requires shift < bits
    ensures Pow(2, shift + 7) == 0x80 * Pow(2, shift)
    ensures shift + 7 < bits ==> 0x80 * Pow(2, shift) <= Pow(2, bits)
    ensures shift + 7 >= bits ==> Pow(2, bits - shift) * Pow(2, shift) == Pow(2, bits) <= Pow(2, shift + 7)
    ensures shift + 7 >= bits ==> Pow(2, bits - shift) <= 0x80
  {
    WeightStep(shift);
    if shift + 7 < bits {
      PowMonotone(2, shift + 7, bits);
    } else {
      SmallPowers();
      PowMonotone(2, bits - shift, 7);
      PowAdd(2, bits - shift, shift);
      PowMonotone(2, bits, shift + 7);
    }
  }

  lemma OrGroupExact(bits: nat, shift: nat, i: nat, b: byte, q: nat)
    requires i < Pow(2, shift) && b % 0x80 < q && q * Pow(2, shift) <= Pow(2, bits)
    ensures OrGroup(bits, shift, i, b) == i + b % 0x80 * Pow(2, shift) < q * Pow(2, shift)
  {
    PowPositive(2, bits);
    NoWrap(i, b % 0x80, Pow(2, shift), q, Pow(2, bits));
  }

  /** The group just read lands above the bits already in and inside the `bits`-wide result. */
  lemma GroupLands(bits: nat, shift: nat, i: nat, b: byte)
    requires shift < bits && i < Pow(2, shift) && !TooWide(bits, shift, b)
    ensures OrGroup(bits, shift, i, b) == i + b % 0x80 * Pow(2, shift)
    ensures OrGroup(bits, shift, i, b) < Pow(2, shift + 7)
    ensures OrGroup(bits, shift, i, b) < Pow(2, bits)
  {
    Weights(bits, shift);
    if shift + 7 < bits {
      OrGroupExact(bits, shift, i, b, 0x80);
    } else {
      OrGroupExact(bits, shift, i, b, Pow(2, bits - shift));
    }
  }

  /** One round of the reader's loop, seen from the final outcome. */
  lemma GroupTaken(bits: nat, shift: nat, i: nat, read: nat, s: seq<byte>)
    requires shift < bits && i < Pow(2, shift) && s != [] && !TooWide(bits, shift, s[0])
    requires s[0] != 0 || shift == 0
    ensures var i' := OrGroup(bits, shift, i, s[0]);
            if s[0] < 0x80 then
              Finish(i, shift, read, ReadAt(bits, shift, s)) == Stopped(i', read + 1)
            else
              && shift + 7 < bits
              && Finish(i, shift, read, ReadAt(bits, shift, s))
              == Finish(i', shift + 7, read + 1, ReadAt(bits, shift + 7, s[1..]))
  {
    GroupLands(bits, shift, i, s[0]);
    if s[0] >= 0x80 {
      GroupsFit(bits, shift, s[0]);
      FinishStep(i, shift, read, s[0] - 0x80, ReadAt(bits, shift + 7, s[1..]));
    }
  }

  /** `toVarint` for an unsigned type of `bits` value bits. */
  method ToVarint(bits: nat, str: seq<byte>) returns (read: int, i: nat)
    requires bits > 0
    ensures match Read(bits, str)
            case Stopped(v, k) => read == k && i == v
            case RanOut(v, k) => read == k && i == v
            case Overflow => read == -1
            case NonCanonical => read == -2
    ensures i < Pow(2, bits)
  {
    var shift := 0;
    read, i := 0, 0;
    PowPositive(2, bits);
    assert str[0..] == str;
    while true
      invariant 0 <= read <= |str|
      invariant shift < bits
      invariant i < Pow(2, shift) && i < Pow(2, bits)
      invariant Finish(i, shift, read, ReadAt(bits, shift, str[read..])) == Read(bits, str)
      decreases |str| - read
    {
      if read == |str| {
        return;
      }
      var b := str[read];
      ghost var rest := str[read..];
      assert b == rest[0] && rest[1..] == str[read + 1..];
      if shift + 7 >= bits && b >= Pow(2, bits - shift) {
        return -1, i;
      }
      if b == 0 && shift != 0 {
        return -2, i;
      }
      GroupTaken(bits, shift, i, read, rest);
      GroupLands(bits, shift, i, b);
      read := read + 1;
      i := OrGroup(bits, shift, i, b);
      if b < 0x80 {
        return;
      }
      shift := shift + 7;
    }
  }

  lemma HighGroups(v: nat, bits: nat, shift: nat)
    requires shift < bits && v >= 0x80 && v < Pow(2, bits - shift)
    ensures shift + 7 < bits
    ensures v / 0x80 < Pow(2, bits - shift - 7)
    ensures v / 0x80 != 0
  {
    SmallPowers();
    if shift + 7 >= bits {
      PowMonotone(2, bits - shift, 7);
      assert false;
    } else {
      PowAdd(2, 7, bits - shift - 7);
    }
  }

  /** Reading back what was written, whatever follows. */
  lemma {:induction false} ReadOfEncoded(bits: nat, shift: nat, v: nat, s: seq<byte>)
    requires shift < bits && v < Pow(2, bits - shift)
    requires shift == 0 || v != 0
    ensures ReadAt(bits, shift, Encoded(v) + s) == Stopped(v, |Encoded(v)|)
    decreases v
  {
    var t := Encoded(v) + s;
    if v >= 0x80 {
      HighGroups(v, bits, shift);
      ReadOfEncoded(bits, shift + 7, v / 0x80, s);
      assert t[1..] == Encoded(v / 0x80) + s;
    }
  }

  lemma GroupBound(low: nat, v: nat, m: nat)
    requires low < 0x80 && m >= 7 && v < Pow(2, m - 7)
    ensures low + 0x80 * v < Pow(2, m)
  {
    SmallPowers();
    PowAdd(2, 7, m - 7);
  }

  lemma LastGroupBound(bits: nat, shift: nat, b: byte)
    requires shift < bits && b < 0x80 && !TooWide(bits, shift, b)
    ensures b < Pow(2, bits - shift)
  {
    SmallPowers();
    if shift + 7 < bits { PowMonotone(2, 7, bits - shift); }
  }

  /** A read that stops on a byte with its high bit clear has a value that fits, and not a leading zero group. */
  lemma {:induction false} ReadBound(bits: nat, shift: nat, s: seq<byte>)
    requires shift < bits && ReadAt(bits, shift, s).Stopped?
    ensures ReadAt(bits, shift, s).value < Pow(2, bits - shift)
    ensures shift != 0 ==> ReadAt(bits, shift, s).value != 0
    decreases s
  {
    if s[0] < 0x80 {
      LastGroupBound(bits, shift, s[0]);
    } else {
      GroupsFit(bits, shift, s[0]);
      ReadBound(bits, shift + 7, s[1..]);
      GroupBound(s[0] - 0x80, ReadAt(bits, shift + 7, s[1..]).value, bits - shift);
    }
  }

  lemma EncodedPrepend(low: nat, v: nat)
    requires low < 0x80 && v != 0
    ensures Encoded(low + 0x80 * v) == [low + 0x80] + Encoded(v)
  {
    var n := low + 0x80 * v;
    SplitGroup(low, v);
    assert Encoded(n) == [n % 0x80 + 0x80] + Encoded(n / 0x80);
  }

  lemma SplitGroup(low: nat, v: nat)
    requires low < 0x80
    ensures (low + 0x80 * v) % 0x80 == low && (low + 0x80 * v) / 0x80 == v
  {
  }

  /** A read that stops on a byte with its high bit clear consumed exactly the canonical encoding of its result. */
  lemma {:induction false} EncodedOfRead(bits: nat, shift: nat, s: seq<byte>)
    requires shift < bits && ReadAt(bits, shift, s).Stopped?
    ensures var o := ReadAt(bits, shift, s);
            o.len <= |s| && s[..o.len] == Encoded(o.value)
    decreases s
  {
    if s[0] < 0x80 {
      assert s[..1] == [s[0]];
    } else {
      GroupsFit(bits, shift, s[0]);
      EncodedOfRead(bits, shift + 7, s[1..]);
      ReadBound(bits, shift + 7, s[1..]);
      var o := ReadAt(bits, shift + 7, s[1..]);
      EncodedPrepend(s[0] - 0x80, o.value);
      assert s[..o.len + 1] == [s[0]] + s[1..][..o.len];
    }
  }

  /** The reader stops with value `v` after `k` bytes exactly when the input starts with the canonical
      encoding of `v`, `k` is its length, and `v` fits the type. */
  lemma {:induction false} ReadExact(bits: nat, s: seq<byte>, v: nat, k: nat)
    requires bits > 0
    ensures Read(bits, s) == Stopped(v, k)
       <==> v < Pow(2, bits) && k == |Encoded(v)| && Encoded(v) <= s
  {
    if Read(bits, s) == Stopped(v, k) {
      EncodedOfRead(bits, 0, s);
      ReadBound(bits, 0, s);
    }
    if v < Pow(2, bits) && Encoded(v) <= s {
      ReadOfEncoded(bits, 0, v, s[|Encoded(v)|..]);
      assert s == Encoded(v) + s[|Encoded(v)|..];
    }
  }

  /** The read runs out exactly when every byte asks for more and the width is not yet used up. */
  lemma {:induction false} RanOutExact(bits: nat, shift: nat, s: seq<byte>)
    requires shift < bits
    ensures ReadAt(bits, shift, s).RanOut?
       <==> (forall i :: 0 <= i < |s| ==> s[i] >= 0x80) && shift + 7 * |s| < bits
    ensures ReadAt(bits, shift, s).RanOut? ==> ReadAt(bits, shift, s).len == |s|
    decreases s
  {
    if s != [] && s[0] >= 0x80 && !TooWide(bits, shift, s[0]) {
      GroupsFit(bits, shift, s[0]);
      RanOutExact(bits, shift + 7, s[1..]);
      assert s == [s[0]] + s[1..];
    }
  }

  /** No read takes more groups than the width has room for. */
  lemma {:induction false} ReadLength(bits: nat, shift: nat, s: seq<byte>)
    requires shift < bits
    ensures var o := ReadAt(bits, shift, s);
            o.Stopped? || o.RanOut? ==> shift + 7 * o.len < bits + 7
    decreases s
  {
    if s != [] && s[0] >= 0x80 && !TooWide(bits, shift, s[0]) {
      GroupsFit(bits, shift, s[0]);
      ReadLength(bits, shift + 7, s[1..]);
    }
  }

  // ---------- What the bytes say ----------

  /** The number in the low seven bits of the bytes, least significant byte first. */
  function Groups(s: seq<byte>): nat
  {
    if s == [] then 0 else s[0] % 0x80 + 0x80 * Groups(s[1..])
  }

  /** The canonical encoding: the right groups, high bits set on all but the last, and no needless last group. */
  lemma {:induction false} EncodedGroups(v: nat)
    ensures var s := Encoded(v);
            && Groups(s) == v
            && (forall i :: 0 <= i < |s| ==> (s[i] >= 0x80 <==> i < |s| - 1))
            && (|s| > 1 ==> s[|s| - 1] != 0)
    decreases v
  {
    if v >= 0x80 {
      EncodedGroups(v / 0x80);
      assert Encoded(v)[1..] == Encoded(v / 0x80);
    }
  }

  lemma GroupsPrepend(s: seq<byte>, k: nat)
    requires s != [] && s[0] >= 0x80 && k <= |s[1..]|
    ensures Groups(s[..k + 1]) == s[0] - 0x80 + 0x80 * Groups(s[1..][..k])
  {
    assert s[..k + 1][1..] == s[1..][..k];
  }

  /** Whatever is read is the number in the bytes consumed. */
  lemma {:induction false} ReadGroups(bits: nat, shift: nat, s: seq<byte>)
    requires shift < bits
    ensures var o := ReadAt(bits, shift, s);
            o.Stopped? || o.RanOut? ==> o.len <= |s| && o.value == Groups(s[..o.len])
    decreases s
  {
    if s != [] && !TooWide(bits, shift, s[0]) && (s[0] != 0 || shift == 0) {
      if s[0] < 0x80 {
        assert s[..1] == [s[0]] && [s[0]][1..] == [];
      } else {
        GroupsFit(bits, shift, s[0]);
        ReadGroups(bits, shift + 7, s[1..]);
        var o := ReadAt(bits, shift + 7, s[1..]);
        if o.Stopped? || o.RanOut? { GroupsPrepend(s, o.len); }
      }
    }
  }

  /** How many bytes in front ask for more. */
  function Continued(s: seq<byte>): (k: nat)
    ensures k <= |s|
    ensures forall i :: 0 <= i < k ==> s[i] >= 0x80
    ensures k < |s| ==> s[k] < 0x80
  {
    if s != [] && s[0] >= 0x80 then 1 + Continued(s[1..]) else 0
  }

  /** -1 exactly for a number beyond the width: too many groups, or a last one with bits the type does not have.
      -2 exactly for a last group that adds nothing. */
  lemma {:induction false} RefusedExact(bits: nat, shift: nat, s: seq<byte>)
    requires shift < bits
    ensures var k := Continued(s);
            && (ReadAt(bits, shift, s).Overflow? <==>
                  || shift + 7 * k >= bits
                  || (k < |s| && shift + 7 * k + 7 >= bits && s[k] >= Pow(2, bits - shift - 7 * k)))
            && (ReadAt(bits, shift, s).NonCanonical? <==>
                  k < |s| && s[k] == 0 && shift + 7 * k != 0 && shift + 7 * k < bits)
    decreases s
  {
    if s != [] && s[0] >= 0x80 {
      if TooWide(bits, shift, s[0]) {
        assert shift + 7 * Continued(s) >= bits;
      } else {
        GroupsFit(bits, shift, s[0]);
        RefusedExact(bits, shift + 7, s[1..]);
      }
    } else if s != [] && s[0] == 0 {
      PowPositive(2, bits - shift);
    }
  }
}
