/** The alphabet of random passwords and its four classes. */
module CharacterClasses {
  import opened Basics
  import opened RandomInt

  const LOWER := "abcdefghijklmnopqrstuvwxyz"
  const UPPER := "ABCDEFGHIJKLMNOPQRSTUVWXYZ"
  const DIGITS := "0123456789"
  const SPECIAL := "!@#$%^&*()_+-=[]{}|;:,.<>?"

  /** A character class by its name; All is the union of the other four. */
  datatype Class = Lower | Upper | Digit | Special | All

  function Chars(c: Class): (s: string)
    ensures 1 <= |s| < WORDS
  {
    match c
    case Lower => LOWER
    case Upper => UPPER
    case Digit => DIGITS
    case Special => SPECIAL
    case All => LOWER + UPPER + DIGITS + SPECIAL
  }

  lemma LowerChars(x: char)
    ensures x in LOWER <==> 'a' <= x <= 'z'
  {
  }

  lemma UpperChars(x: char)
    ensures x in UPPER <==> 'A' <= x <= 'Z'
  {
  }

  lemma DigitChars(x: char)
    ensures x in DIGITS <==> '0' <= x <= '9'
  {
  }

  /** The printable characters of ASCII that are neither letters nor digits, but for quotes, slashes, ` and ~. */
  lemma SpecialChars(x: char)
    ensures x in SPECIAL <==> ('!' <= x <= '.' && x != '"' && x != '\'') || ':' <= x <= '@' || x in "[]^_{|}"
  {
  }

  /** The class of a character, told by its code. */
  ghost predicate Belongs(x: char, c: Class)
    decreases c == All
  {
    match c
    case Lower => 'a' <= x <= 'z'
    case Upper => 'A' <= x <= 'Z'
    case Digit => '0' <= x <= '9'
    case Special => ('!' <= x <= '.' && x != '"' && x != '\'') || ':' <= x <= '@' || x in "[]^_{|}"
    case All => Belongs(x, Lower) || Belongs(x, Upper) || Belongs(x, Digit) || Belongs(x, Special)
  }

  lemma AllChars(x: char)
    ensures x in Chars(All) <==> x in LOWER || x in UPPER || x in DIGITS || x in SPECIAL
  {
  }

  /** Which characters a class holds. */
  lemma ClassExactly(x: char, c: Class)
    ensures x in Chars(c) <==> Belongs(x, c)
  {
    LowerChars(x);
    UpperChars(x);
    DigitChars(x);
    SpecialChars(x);
    AllChars(x);
  }

  lemma ClassInAll(x: char, c: Class)
    requires x in Chars(c)
    ensures x in Chars(All)
  {
    AllChars(x);
  }

  /** The classes do not overlap. */
  lemma ClassesApart(x: char, c: Class, d: Class)
    requires c != All && d != All && x in Chars(c) && x in Chars(d)
    ensures c == d
  {
    ClassExactly(x, c);
    ClassExactly(x, d);
  }

  lemma LettersDistinct()
    ensures Distinct(LOWER) && Distinct(UPPER) && Distinct(DIGITS)
  {
    assert forall i :: 0 <= i < 26 ==> LOWER[i] as int == 'a' as int + i;
    assert forall i :: 0 <= i < 26 ==> UPPER[i] as int == 'A' as int + i;
    assert forall i :: 0 <= i < 10 ==> DIGITS[i] as int == '0' as int + i;
  }

  lemma SpecialDistinct(i: nat, j: nat)
    requires i < j < 26
    ensures SPECIAL[i] != SPECIAL[j]
  {
  }

  /** Where the k-th character of the whole alphabet stands in its class. */
  function Place(k: nat): (p: (Class, nat))
    requires k < 88
    ensures p.0 != All && p.1 < |Chars(p.0)| && Chars(All)[k] == Chars(p.0)[p.1]
  {
    if k < 26 then (Lower, k) else if k < 52 then (Upper, k - 26) else if k < 62 then (Digit, k - 52)
    else (Special, k - 62)
  }

  lemma ClassDistinct(c: Class, k: nat, l: nat)
    requires c != All && k < l < |Chars(c)|
    ensures Chars(c)[k] != Chars(c)[l]
  {
    if c == Special {
      SpecialDistinct(k, l);
    } else {
      LettersDistinct();
    }
  }

  /** The whole alphabet holds 88 different characters, so no draw from it favours one. */
  lemma AlphabetDistinct()
    ensures |Chars(All)| == 88 && Distinct(Chars(All))
  {
    assert |Chars(All)| == 88;
    forall i: nat, j: nat | i < j < 88 ensures Chars(All)[i] != Chars(All)[j] {
      var (c, k) := Place(i);
      var (d, l) := Place(j);
      if c == d {
        ClassDistinct(c, k, l);
      } else if Chars(c)[k] == Chars(d)[l] {
        ClassesApart(Chars(c)[k], c, d);
      }
    }
  }
}
