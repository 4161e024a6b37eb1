/**
 * Python's `str.upper`, reduced to ASCII: the letters a..z become A..Z and
 * every other character is left alone.
 */
module AsciiCase {

  predicate IsLower(c: char) { 'a' <= c <= 'z' }

  predicate IsUpper(c: char) { 'A' <= c <= 'Z' }

  function UpperChar(c: char): (u: char)
  {
    if IsLower(c) then (c as int - 32) as char else c
  }

  function Upper(s: string): (r: string)
    ensures |r| == |s|
    ensures forall i :: 0 <= i < |s| ==> r[i] == UpperChar(s[i])
  {
    seq(|s|, i requires 0 <= i < |s| => UpperChar(s[i]))
  }

  /** The lower-case partner of an upper-case letter. */
  function LowerOf(c: char): (l: char)
    requires IsUpper(c)
    ensures IsLower(l)
  {
    (c as int + 32) as char
  }

  /** A word made of upper-case ASCII letters only, such as a mechanism name. */
  predicate IsUpperWord(w: string) {
    forall i :: 0 <= i < |w| ==> IsUpper(w[i])
  }

  /**
   * `m` spells `w` letter by letter, each letter in either case: an
   * independent description of a case-insensitive match.
   */
  predicate SpellsIgnoringCase(m: string, w: string)
    requires IsUpperWord(w)
  {
    |m| == |w| && forall i :: 0 <= i < |m| ==> m[i] == w[i] || m[i] == LowerOf(w[i])
  }

  /** Upper-casing maps a letter onto an upper-case letter `u` exactly when it is `u` or its lower-case partner. */
  lemma UpperCharIs(c: char, u: char)
    requires IsUpper(u)
    ensures UpperChar(c) == u <==> c == u || c == LowerOf(u)
  {
  }

  /** `Upper(m) == w` for an upper-case word `w` holds exactly when `m` spells `w` in any mix of cases. */
  lemma UpperEqualsWord(m: string, w: string)
    requires IsUpperWord(w)
    ensures Upper(m) == w <==> SpellsIgnoringCase(m, w)
  {
    if Upper(m) == w {
      forall i | 0 <= i < |m| ensures m[i] == w[i] || m[i] == LowerOf(w[i]) {
        UpperCharIs(m[i], w[i]);
      }
    }
    if SpellsIgnoringCase(m, w) {
      forall i | 0 <= i < |m| ensures Upper(m)[i] == w[i] {
        UpperCharIs(m[i], w[i]);
      }
    }
  }
}
