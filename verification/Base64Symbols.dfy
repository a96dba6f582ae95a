/**
 The base64 alphabet of the image codecs, and characters as pairs of octal symbols.
 */
module Base64Symbols {

  datatype Option<+T> = None | Some(value: T)

  // A-Z, a-z, 0-9, + and /, in this order
  function CharOf(index: nat): char
    requires index < 64
  {
    if index < 26 then (index + 65) as char
    else if index < 52 then (index - 26 + 97) as char
    else if index < 62 then (index - 52 + 48) as char
    else if index == 62 then '+'
    else '/'
  }

  // The place of a character in the alphabet
  function IndexOf(c: char): Option<nat> {
    if 'A' <= c <= 'Z' then Some(c as nat - 65)
    else if 'a' <= c <= 'z' then Some(c as nat - 97 + 26)
    else if '0' <= c <= '9' then Some(c as nat - 48 + 52)
    else if c == '+' then Some(62)
    else if c == '/' then Some(63)
    else None
  }

  predicate IsBase64(c: char) {
    IndexOf(c).Some?
  }

  predicate AllBase64(text: string) {
    forall i | 0 <= i < |text| :: IsBase64(text[i])
  }

  lemma IndexOfChar(index: nat)
    requires index < 64
    ensures IndexOf(CharOf(index)) == Some(index)
  {}

  lemma {:induction false} CharOfIndex(c: char)
    requires IsBase64(c)
    ensures IndexOf(c).value < 64 && CharOf(IndexOf(c).value) == c
  {}

  const ALPHABET := "ABCDEFGHIJKLMNOPQRSTUVWXYZ" + "abcdefghijklmnopqrstuvwxyz" + "0123456789+/"

  // The characters in the order in which the programs list them
  lemma {:induction false} AlphabetOrder(i: nat)
    requires i < 64
    ensures |ALPHABET| == 64 && CharOf(i) == ALPHABET[i] && IndexOf(ALPHABET[i]) == Some(i)
  {
    hide IndexOf;
    assert |ALPHABET| == 64;
    if i < 26 {
      UpperCase(i);
    } else if i < 52 {
      LowerCase(i);
    } else {
      DigitsAndSigns(i);
    }
    IndexOfChar(i);
  }

  lemma UpperCase(i: nat)
    requires i < 26
    ensures ALPHABET[i] == CharOf(i)
  {}

  lemma LowerCase(i: nat)
    requires 26 <= i < 52
    ensures ALPHABET[i] == CharOf(i)
  {}

  lemma DigitsAndSigns(i: nat)
    requires 52 <= i < 64
    ensures ALPHABET[i] == CharOf(i)
  {}

  // A character has at most one place.
  lemma {:induction false} AlphabetPlace(c: char, i: nat)
    requires i < 64
    ensures |ALPHABET| == 64 && (IndexOf(c) == Some(i) <==> c == ALPHABET[i])
  {
    AlphabetOrder(i);
    hide IndexOf, CharOf;
    if IndexOf(c) == Some(i) {
      CharOfIndex(c);
    }
  }
}
