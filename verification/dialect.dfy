/** The identifier rules of the SQL dialect the query parser is given:
    letters, `_` and `*` may start an identifier, and digits may continue
    one. `*` is allowed so that a bare `*` lexes as a word. */
module Dialect {

  predicate IsAsciiLowercase(c: char) { 'a' <= c <= 'z' }

  predicate IsAsciiUppercase(c: char) { 'A' <= c <= 'Z' }

  predicate IsAsciiDigit(c: char) { '0' <= c <= '9' }

  /** `is_identifier_start`: accepts exactly the listed start characters. */
  function IsIdentifierStart(c: char): (b: bool)
    ensures b <==> c in StartCharacters
  {
    InRange(c, 'a', 26);
    InRange(c, 'A', 26);
    IsAsciiLowercase(c) || IsAsciiUppercase(c) || c == '_' || c == '*'
  }

  /** `is_identifier_part`, with the repeated test for `*` kept: accepts
      exactly the listed part characters. */
  function IsIdentifierPart(c: char): (b: bool)
    ensures b <==> c in PartCharacters
  {
    InRange(c, '0', 10);
    IsIdentifierStart(c) || IsAsciiDigit(c) || c == '*'
  }

  /** `count` consecutive characters from `first` on. */
  function Range(first: char, count: nat): (r: string)
    requires first as int + count <= 0xD800
    ensures |r| == count
    ensures forall i :: 0 <= i < count ==> r[i] as int == first as int + i
  {
    seq(count, i requires 0 <= i < count => (first as int + i) as char)
  }

  /** The characters that may start an identifier, listed. */
  const StartCharacters: string := Range('a', 26) + Range('A', 26) + "_*"

  /** The characters that may continue an identifier, listed. */
  const PartCharacters: string := StartCharacters + Range('0', 10)

  lemma InRange(c: char, first: char, count: nat)
    requires first as int + count <= 0xD800
    ensures c in Range(first, count) <==> first as int <= c as int < first as int + count
  {
    if first as int <= c as int < first as int + count {
      assert Range(first, count)[c as int - first as int] == c;
    }
  }

  /** Whatever may start an identifier may continue one. */
  lemma StartIsPart(c: char)
    ensures IsIdentifierStart(c) ==> IsIdentifierPart(c)
  {
  }

  /** Digits continue identifiers but never start one. */
  lemma DigitsOnlyContinue(c: char)
    requires IsAsciiDigit(c)
    ensures IsIdentifierPart(c) && !IsIdentifierStart(c)
  {
  }

  /** A part character that cannot start an identifier is a digit. */
  lemma PartButNotStartIsDigit(c: char)
    requires IsIdentifierPart(c) && !IsIdentifierStart(c)
    ensures IsAsciiDigit(c)
  {
  }

  /** Every character other than an ASCII letter, an ASCII digit, `_` or
      `*` is refused by both predicates. */
  lemma OthersRejected(c: char)
    requires !(IsAsciiLowercase(c) || IsAsciiUppercase(c) || IsAsciiDigit(c) || c == '_' || c == '*')
    ensures !IsIdentifierStart(c) && !IsIdentifierPart(c)
  {
  }
}
