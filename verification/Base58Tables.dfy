/** The symbol and block-size tables of src/common/base58.cpp. */
module Base58Tables {
  import opened LetterRuns

  const ALPHABET: string :=
    "123456789" + "ABCDEFGH" + "JKLMN" + "PQRSTUVWXYZ" + "abcdefghijk" + "mnopqrstuvwxyz"
  const ALPHABET_SIZE: nat := 58
  const ENCODED_SIZES: seq<nat> := [0, 2, 3, 5, 6, 7, 9, 10, 11]
  const FULL_BLOCK: nat := 8
  const FULL_ENCODED_BLOCK: nat := 11
  const NONE: int := -1

  /** The digit a letter stands for, or -1. */
  function Rank(c: char): int
  {
    if '1' <= c <= '9' then c as int - '1' as int
    else if 'A' <= c <= 'H' then c as int - 'A' as int + 9
    else if 'J' <= c <= 'N' then c as int - 'J' as int + 17
    else if 'P' <= c <= 'Z' then c as int - 'P' as int + 22
    else if 'a' <= c <= 'k' then c as int - 'a' as int + 33
    else if 'm' <= c <= 'z' then c as int - 'm' as int + 44
    else NONE
  }

  /** The number of bytes a block of `n` symbols decodes to, or -1. */
  function DecodedSize(n: nat): (s: int)
    ensures 0 <= s ==> s <= FULL_BLOCK && ENCODED_SIZES[s] == n
    ensures s < 0 ==> n !in ENCODED_SIZES
  {
    if n == 0 then 0 else if n == 2 then 1 else if n == 3 then 2 else if n == 5 then 3
    else if n == 6 then 4 else if n == 7 then 5 else if n == 9 then 6 else if n == 10 then 7
    else if n == 11 then 8 else NONE
  }

  lemma Runs()
    ensures Run("123456789", '1') && Run("ABCDEFGH", 'A') && Run("JKLMN", 'J')
    ensures Run("PQRSTUVWXYZ", 'P') && Run("abcdefghijk", 'a') && Run("mnopqrstuvwxyz", 'm')
  {
  }

  lemma AlphabetAt(d: nat)
    requires d < ALPHABET_SIZE
    ensures ALPHABET[d] as int == if d < 9 then '1' as int + d
                                  else if d < 17 then 'A' as int + (d - 9)
                                  else if d < 22 then 'J' as int + (d - 17)
                                  else if d < 33 then 'P' as int + (d - 22)
                                  else if d < 44 then 'a' as int + (d - 33)
                                  else 'm' as int + (d - 44)
  {
    Runs();
    if d < 9 { assert ALPHABET[d] == "123456789"[d]; }
    else if d < 17 { assert ALPHABET[d] == "ABCDEFGH"[d - 9]; }
    else if d < 22 { assert ALPHABET[d] == "JKLMN"[d - 17]; }
    else if d < 33 { assert ALPHABET[d] == "PQRSTUVWXYZ"[d - 22]; }
    else if d < 44 { assert ALPHABET[d] == "abcdefghijk"[d - 33]; }
    else { assert ALPHABET[d] == "mnopqrstuvwxyz"[d - 44]; }
  }

  lemma RankOfSymbol(d: nat)
    requires d < ALPHABET_SIZE
    ensures Rank(ALPHABET[d]) == d
  {
    AlphabetAt(d);
  }

  /** A letter has rank `d` exactly when it is the `d`-th letter of the alphabet. */
  lemma SymbolOfRank(c: char)
    requires Rank(c) >= 0
    ensures Rank(c) < ALPHABET_SIZE && ALPHABET[Rank(c)] == c
  {
    AlphabetAt(Rank(c));
    assert ALPHABET[Rank(c)] as int == c as int;
  }

  const TABLE_SIZE: nat := 'z' as int - '1' as int + 1

  function LetterAt(j: nat): char
    requires j < TABLE_SIZE
  {
    ('1' as int + j) as char
  }

  /** The two reverse tables, built by filling vectors in place. */
  class ReverseTables {
    var letters: seq<int>
    var sizes: seq<int>

    ghost predicate Valid()
      reads this
    {
      && |letters| == TABLE_SIZE
      && (forall j :: 0 <= j < |letters| ==> letters[j] == Rank(LetterAt(j)))
      && |sizes| == FULL_ENCODED_BLOCK + 1
      && (forall n :: 0 <= n < |sizes| ==> sizes[n] == DecodedSize(n))
    }

    constructor ()
      ensures Valid()
    {
      var table := seq(TABLE_SIZE, _ => NONE);
      for i := 0 to ALPHABET_SIZE
        invariant |table| == TABLE_SIZE
        invariant forall j :: 0 <= j < TABLE_SIZE ==>
          table[j] == (var r := Rank(LetterAt(j)); if r < i then r else NONE)
      {
        RankOfSymbol(i);
        var idx := ALPHABET[i] as int - '1' as int;
        forall j | 0 <= j < TABLE_SIZE && j != idx
          ensures Rank(LetterAt(j)) != i
        {
          if Rank(LetterAt(j)) == i {
            SymbolOfRank(LetterAt(j));
            assert false;
          }
        }
        table := table[idx := i];
      }
      forall j | 0 <= j < TABLE_SIZE
        ensures table[j] == Rank(LetterAt(j))
      {
        if Rank(LetterAt(j)) >= 0 { SymbolOfRank(LetterAt(j)); }
      }
      letters := table;
      table := seq(FULL_ENCODED_BLOCK + 1, _ => NONE);
      for i := 0 to FULL_BLOCK + 1
        invariant |table| == FULL_ENCODED_BLOCK + 1
        invariant forall n :: 0 <= n <= FULL_ENCODED_BLOCK ==>
          table[n] == if DecodedSize(n) < i then DecodedSize(n) else NONE
      {
        assert DecodedSize(ENCODED_SIZES[i]) == i;
        table := table[ENCODED_SIZES[i] := i];
      }
      sizes := table;
    }

    /** `reverse_alphabet::operator()`: letters outside the table have no digit. */
    function Letter(c: char): (d: int)
      requires Valid()
      reads this
      ensures d == Rank(c)
    {
      var idx := c as int - '1' as int;
      if 0 <= idx < |letters| then
        assert LetterAt(idx) == c;
        letters[idx]
      else NONE
    }

    /** `decoded_block_sizes::operator()`. */
    function Size(n: nat): (s: int)
      requires Valid() && n <= FULL_ENCODED_BLOCK
      reads this
      ensures s == DecodedSize(n)
    {
      sizes[n]
    }
  }
}
