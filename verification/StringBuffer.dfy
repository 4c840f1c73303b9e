/** The fixed-capacity string editor of src/common/StringBuffer.h. Edits move characters inside one array; they are
    proved to be the edits of a plain sequence, and the searches to find the least and greatest occurrence. */
module StringBuffer {
  import opened Options

  const NUL: char := '\0'

  // ---------- Edits of a sequence ----------

  datatype Edit =
    | Append(text: string)
    | Insert(index: nat, text: string)
    | Cut(index: nat, count: nat)
    | Overwrite(index: nat, text: string)
    | Resize(length: nat)
    | Reverse
    | Shrink(length: nat)

  /** What the source demands of its callers. */
  predicate Allowed(maximum: nat, s: string, e: Edit)
  {
    match e
    case Append(text) => |s| + |text| <= maximum
    case Insert(index, text) => index <= |s| && |s| + |text| <= maximum
    case Cut(index, count) => index + count <= |s|
    case Overwrite(index, text) => index <= |s| && index + |text| <= maximum
    case Resize(length) => length <= maximum
    case Reverse => true
    case Shrink(length) => length <= |s|
  }

  function Reversed(s: string): string
  {
    seq(|s|, i requires 0 <= i < |s| => s[|s| - 1 - i])
  }

  function Edited(maximum: nat, s: string, e: Edit): string
    requires Allowed(maximum, s, e)
  {
    match e
    case Append(text) => s + text
    case Insert(index, text) => s[..index] + text + s[index..]
    case Cut(index, count) => s[..index] + s[index + count..]
    case Overwrite(index, text) => s[..index] + text + if index + |text| < |s| then s[index + |text|..] else []
    case Resize(length) => if length <= |s| then s[..length] else s + seq(length - |s|, _ => NUL)
    case Reverse => Reversed(s)
    case Shrink(length) => s[..length]
  }

  ghost predicate AllAllowed(maximum: nat, s: string, es: seq<Edit>)
    decreases es
  {
    es == [] || (Allowed(maximum, s, es[0]) && AllAllowed(maximum, Edited(maximum, s, es[0]), es[1..]))
  }

  ghost function EditedAll(maximum: nat, s: string, es: seq<Edit>): string
    requires AllAllowed(maximum, s, es)
    decreases es
  {
    if es == [] then s else EditedAll(maximum, Edited(maximum, s, es[0]), es[1..])
  }

  /** What a resized string keeps and what it is filled up with. */
  lemma ResizeFills(maximum: nat, s: string, length: nat, i: nat)
    requires length <= maximum && i < length
    ensures var t := Edited(maximum, s, Resize(length));
            |t| == length && t[i] == if i < |s| then s[i] else '\0'
  {
  }

  /** Cutting out what was inserted gives the string back. */
  lemma CutOfInsert(maximum: nat, s: string, index: nat, text: string)
    requires Allowed(maximum, s, Insert(index, text))
    ensures Allowed(maximum, Edited(maximum, s, Insert(index, text)), Cut(index, |text|))
    ensures Edited(maximum, Edited(maximum, s, Insert(index, text)), Cut(index, |text|)) == s
  {
    var t := s[..index] + text + s[index..];
    assert t[..index] == s[..index] && t[index + |text|..] == s[index..];
  }

  /** Putting back what was cut out gives the string back. */
  lemma InsertOfCut(maximum: nat, s: string, index: nat, count: nat)
    requires |s| <= maximum && Allowed(maximum, s, Cut(index, count))
    ensures var t := Edited(maximum, s, Cut(index, count));
            var back := Insert(index, s[index..index + count]);
            Allowed(maximum, t, back) && Edited(maximum, t, back) == s
  {
    var t := s[..index] + s[index + count..];
    assert t[..index] == s[..index] && t[index..] == s[index + count..];
  }

  /** Overwriting is cutting out what is there and inserting the text. */
  lemma OverwriteIsCutAndInsert(maximum: nat, s: string, index: nat, text: string)
    requires |s| <= maximum && Allowed(maximum, s, Overwrite(index, text))
    ensures var count := if index + |text| < |s| then |text| else |s| - index;
            var t := Edited(maximum, s, Cut(index, count));
            && Allowed(maximum, t, Insert(index, text))
            && Edited(maximum, t, Insert(index, text)) == Edited(maximum, s, Overwrite(index, text))
  {
    var count := if index + |text| < |s| then |text| else |s| - index;
    var front, rest := s[..index], s[index + count..];
    assert (front + rest)[..index] == front && (front + rest)[index..] == rest;
    assert index + |text| >= |s| ==> rest == [];
  }

  // ---------- Searches ----------

  predicate OccursAt(s: string, other: string, j: nat)
  {
    j + |other| <= |s| && s[j..j + |other|] == other
  }

  lemma MismatchAt(s: string, other: string, j: nat, k: nat)
    requires j + |other| <= |s| && k < |other| && s[j + k] != other[k]
    ensures !OccursAt(s, other, j)
  {
    assert s[j..j + |other|][k] == s[j + k];
  }

  class Buffer {
    const data: array<char>
    var size: nat

    ghost predicate Valid()
      reads this
    {
      size <= data.Length
    }

    ghost function Contents(): string
      requires Valid()
      reads this, data
    {
      data[..size]
    }

    constructor (maximum: nat)
      requires maximum != 0
      ensures Valid() && fresh(data) && data.Length == maximum && Contents() == ""
    {
      data := new char[maximum](_ => NUL);
      size := 0;
    }

    /** `memmove` inside the array. */
    method Move(target: nat, from: nat, count: nat)
      requires target + count <= data.Length && from + count <= data.Length
      modifies data
      ensures forall i :: 0 <= i < data.Length ==>
                data[i] == if target <= i < target + count then old(data[i - target + from]) else old(data[i])
    {
      forall i | 0 <= i < count {
        data[target + i] := data[from + i];
      }
    }

    /** `memcpy` from a string outside the array. */
    method Write(target: nat, text: string)
      requires target + |text| <= data.Length
      modifies data
      ensures forall i :: 0 <= i < data.Length ==>
                data[i] == if target <= i < target + |text| then text[i - target] else old(data[i])
    {
      forall i | 0 <= i < |text| {
        data[target + i] := text[i];
      }
    }

    method InsertText(index: nat, text: string)
      requires Valid() && index <= size && |text| <= data.Length - size
      modifies this`size, data
      ensures Valid() && Contents() == old(Contents()[..index]) + text + old(Contents()[index..])
    {
      if |text| != 0 {
        ghost var was := Contents();
        Move(index + |text|, index, size - index);
        Write(index, text);
        size := size + |text|;
        assert forall i :: 0 <= i < size ==>
          data[i] == if i < index then was[i] else if i < index + |text| then text[i - index] else was[i - |text|];
        ghost var now := was[..index] + text + was[index..];
        assert forall i :: 0 <= i < size ==> now[i] == data[i];
      }
    }

    method AppendText(text: string)
      requires Valid() && |text| <= data.Length - size
      modifies this`size, data
      ensures Valid() && Contents() == old(Contents()) + text
    {
      if |text| != 0 {
        Write(size, text);
        size := size + |text|;
      }
    }

    /** The move is to lower places; the source leaves the order of the copy to the library. */
    method CutOut(index: nat, count: nat)
      requires Valid() && index <= size && count <= size - index
      modifies this`size, data
      ensures Valid() && Contents() == old(Contents()[..index]) + old(Contents()[index + count..])
    {
      if count != 0 {
        Move(index, index + count, size - index - count);
        size := size - count;
      }
    }

    method OverwriteAt(index: nat, text: string)
      requires Valid() && index <= size && |text| <= data.Length - index
      modifies this`size, data
      ensures Valid()
      ensures Contents() == Edited(data.Length, old(Contents()), Overwrite(index, text))
    {
      ghost var was := Contents();
      Write(index, text);
      if size < index + |text| {
        size := index + |text|;
      }
      assert forall i :: 0 <= i < size ==>
        data[i] == if index <= i < index + |text| then text[i - index] else was[i];
    }

    method ResizeTo(length: nat)
      requires Valid() && length <= data.Length
      modifies this`size, data
      ensures Valid() && Contents() == Edited(data.Length, old(Contents()), Resize(length))
    {
      if length > size {
        forall i | size <= i < length {
          data[i] := NUL;
        }
      }
      size := length;
    }

    method ShrinkTo(length: nat)
      requires Valid() && length <= size
      modifies this`size
      ensures Valid() && Contents() == old(Contents()[..length])
    {
      size := length;
    }

    /** The swapping loop. */
    method ReverseInPlace()
      requires Valid()
      modifies data
      ensures Contents() == Reversed(old(Contents()))
    {
      for i := 0 to size / 2
        invariant forall k :: 0 <= k < i ==> data[k] == old(data[size - 1 - k]) && data[size - 1 - k] == old(data[k])
        invariant forall k :: i <= k < size - i ==> data[k] == old(data[k])
      {
        data[i], data[size - 1 - i] := data[size - 1 - i], data[i];
      }
    }

    method Perform(e: Edit)
      requires Valid() && Allowed(data.Length, Contents(), e)
      modifies this`size, data
      ensures Valid() && Contents() == Edited(data.Length, old(Contents()), e)
    {
      match e
      case Append(text) => AppendText(text);
      case Insert(index, text) => InsertText(index, text);
      case Cut(index, count) => CutOut(index, count);
      case Overwrite(index, text) => OverwriteAt(index, text);
      case Resize(length) => ResizeTo(length);
      case Reverse => ReverseInPlace();
      case Shrink(length) => ShrinkTo(length);
    }

    /** Any sequence of edits leaves in the array what the same edits make of a sequence. */
    method PerformAll(es: seq<Edit>)
      requires Valid() && AllAllowed(data.Length, Contents(), es)
      modifies this`size, data
      ensures Valid() && Contents() == EditedAll(data.Length, old(Contents()), es)
    {
      var k := 0;
      assert es[0..] == es;
      while k < |es|
        invariant k <= |es| && Valid() && AllAllowed(data.Length, Contents(), es[k..])
        invariant EditedAll(data.Length, Contents(), es[k..]) == EditedAll(data.Length, old(Contents()), es)
      {
        assert es[k..][1..] == es[k + 1..];
        Perform(es[k]);
        k := k + 1;
      }
    }

    /** The least occurrence, or nothing exactly when there is none. */
    method Find(other: string) returns (r: Option<nat>)
      requires Valid()
      ensures r.Some? ==> OccursAt(Contents(), other, r.value)
      ensures forall j: nat :: OccursAt(Contents(), other, j) ==> r.Some? && r.value <= j
    {
      if size >= |other| {
        var i := size - |other|;
        var j := 0;
        while j <= i
          invariant forall n: nat :: OccursAt(Contents(), other, n) ==> j <= n
        {
          var k := 0;
          while k < |other| && data[j + k] == other[k]
            invariant k <= |other| && data[j..j + k] == other[..k]
          {
            k := k + 1;
          }
          if k == |other| {
            assert Contents()[j..j + k] == data[j..j + k];
            return Some(j);
          }
          MismatchAt(Contents(), other, j, k);
          j := j + 1;
        }
      }
      return None;
    }

    /** The greatest occurrence, or nothing exactly when there is none. */
    method FindLast(other: string) returns (r: Option<nat>)
      requires Valid()
      ensures r.Some? ==> OccursAt(Contents(), other, r.value)
      ensures forall j: nat :: OccursAt(Contents(), other, j) ==> r.Some? && j <= r.value
    {
      if size >= |other| {
        var i := size - |other|;
        var j := 0;
        while j <= i
          invariant forall n: nat :: OccursAt(Contents(), other, n) ==> n <= i - j
        {
          var k := 0;
          while k < |other| && data[i - j + k] == other[k]
            invariant k <= |other| && data[i - j..i - j + k] == other[..k]
          {
            k := k + 1;
          }
          if k == |other| {
            assert Contents()[i - j..i - j + k] == data[i - j..i - j + k];
            return Some(i - j);
          }
          MismatchAt(Contents(), other, i - j, k);
          j := j + 1;
        }
      }
      return None;
    }
  }
}
