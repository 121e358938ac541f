/** The residue alphabet shared by the FASTA decoder and the BLOSUM reader:
    the 20 canonical amino-acid letters, coded by their position. */
module Alphabet {

  /** kAlphabtets / kAlphabets: the canonical letters in ascending order. */
  const Letters: string := "ACDEFGHIKLMNPQRSTVWY"

  /** Membership in kAlphabtets_set: the capital letters from A to Y other
      than B, J, O, U and X. */
  predicate IsCanonical(c: char) {
    'A' <= c <= 'Y' && c != 'B' && c != 'J' && c != 'O' && c != 'U' && c != 'X'
  }

  /** The set and the array hold the same letters. */
  lemma CanonicalIsLetter(c: char)
    ensures IsCanonical(c) <==> c in Letters
  {
    if IsCanonical(c) {
      assert c == 'A' || c == 'C' || c == 'D' || c == 'E' || c == 'F' || c == 'G' || c == 'H'
        || c == 'I' || c == 'K' || c == 'L' || c == 'M' || c == 'N' || c == 'P' || c == 'Q'
        || c == 'R' || c == 'S' || c == 'T' || c == 'V' || c == 'W' || c == 'Y';
    }
  }

  /** `line[i]` of a std::string: index size() is defined and yields the NUL
      terminator; anything past it is out of range. */
  function CharAt(line: string, i: nat): char
    requires i <= |line|
  {
    if i < |line| then line[i] else '\0'
  }

  /** letter_int_map.at(c): the number of canonical letters below c. */
  function Code(c: char): (k: int)
    requires IsCanonical(c)
    ensures 0 <= k < 20
  {
    (c as int - 'A' as int)
      - (if c > 'B' then 1 else 0) - (if c > 'J' then 1 else 0) - (if c > 'O' then 1 else 0)
      - (if c > 'U' then 1 else 0) - (if c > 'X' then 1 else 0)
  }

  /** Each letter's code is its position in kAlphabtets, so codes are dense
      in [0, 19]. */
  lemma CodeOfLetter(i: int)
    requires 0 <= i < 20
    ensures IsCanonical(Letters[i]) && Code(Letters[i]) == i
  {
    assert i == 0 || i == 1 || i == 2 || i == 3 || i == 4 || i == 5 || i == 6 || i == 7 || i == 8 || i == 9
      || i == 10 || i == 11 || i == 12 || i == 13 || i == 14 || i == 15 || i == 16 || i == 17 || i == 18
      || i == 19;
  }

  /** The letter at a canonical letter's code is that letter. */
  lemma LetterOfCode(c: char)
    requires IsCanonical(c)
    ensures Letters[Code(c)] == c
  {
    assert c == 'A' || c == 'C' || c == 'D' || c == 'E' || c == 'F' || c == 'G' || c == 'H'
      || c == 'I' || c == 'K' || c == 'L' || c == 'M' || c == 'N' || c == 'P' || c == 'Q'
      || c == 'R' || c == 'S' || c == 'T' || c == 'V' || c == 'W' || c == 'Y';
  }

  /** Distinct letters get distinct codes. */
  lemma CodeInjective(a: char, b: char)
    requires IsCanonical(a) && IsCanonical(b) && a != b
    ensures Code(a) != Code(b)
  {
    LetterOfCode(a);
    LetterOfCode(b);
  }

  /** The loop at main.cpp:48-50 that fills letter_int_map. */
  method BuildLetterMap() returns (m: map<char, int>)
    ensures forall c :: IsCanonical(c) ==> c in m && m[c] == Code(c)
    ensures forall c :: c in m ==> IsCanonical(c)
  {
    m := map[];
    for i := 0 to 20
      invariant forall c :: c in m <==> IsCanonical(c) && Code(c) < i
      invariant forall c :: c in m ==> m[c] == Code(c)
    {
      CodeOfLetter(i);
      forall c | IsCanonical(c) && Code(c) == i
        ensures c == Letters[i]
      {
        LetterOfCode(c);
      }
      m := m[Letters[i] := i];
    }
  }
}
