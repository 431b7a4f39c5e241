/** The base-83 digit decoder of the BlurHash crate (src/lib.rs).

    A BlurHash string is a sequence of base-83 numerals written in a fixed
    alphabet of 83 printable characters. `decode_base83_string` reads such a
    numeral most-significant digit first, folding each recognised character
    into an accumulator as `value * 83 + digit` and silently skipping every
    character that is not in the alphabet.

    The accumulator is a `nat`: the source's `usize` is unbounded here. A
    `usize` is as wide as a pointer, 64 bits on a native build and 32 bits
    on the wasm32 target this crate is built for; `Base83Lemmas.FitsInUsize64`
    and `Base83Lemmas.FitsInUsize32` say when each agrees with the model. */
module Base83 {
  import opened Wrappers

  /** The radix of the numeral system: the number of characters in the alphabet. */
  const Radix: nat := 83

  /** The alphabet of the source, `0-9A-Za-z` followed by 21 symbols, written
      as its four blocks; concatenated, they spell out the source's string
      literal character for character. */
  const DecimalDigits: string := "0123456789"
  const UpperLetters: string := "ABCDEFGHIJKLMNOPQRSTUVWXYZ"
  const LowerLetters: string := "abcdefghijklmnopqrstuvwxyz"
  const Symbols: string := "#$%*+,-.:;=?@[]^_{|}~"
  const Alphabet: string := DecimalDigits + UpperLetters + LowerLetters + Symbols

  /** The three alphanumeric blocks are runs of consecutive character codes. */
  lemma AlphanumericBlocks()
    ensures forall i :: 0 <= i < |DecimalDigits| ==> DecimalDigits[i] == ('0' as int + i) as char
    ensures forall i :: 0 <= i < |UpperLetters| ==> UpperLetters[i] == ('A' as int + i) as char
    ensures forall i :: 0 <= i < |LowerLetters| ==> LowerLetters[i] == ('a' as int + i) as char
  {
  }

  /** The symbols are distinct and lie outside the alphanumeric ranges. */
  lemma SymbolBlock()
    ensures forall i, j :: 0 <= i < j < |Symbols| ==> Symbols[i] != Symbols[j]
    ensures forall i :: 0 <= i < |Symbols| ==>
      !('0' <= Symbols[i] <= '9' || 'A' <= Symbols[i] <= 'Z' || 'a' <= Symbols[i] <= 'z')
  {
  }

  /** Where each block sits in the alphabet. */
  lemma AlphabetLayout()
    ensures |Alphabet| == Radix
    ensures forall i :: 0 <= i < 10 ==> Alphabet[i] == DecimalDigits[i]
    ensures forall i :: 10 <= i < 36 ==> Alphabet[i] == UpperLetters[i - 10]
    ensures forall i :: 36 <= i < 62 ==> Alphabet[i] == LowerLetters[i - 36]
    ensures forall i :: 62 <= i < 83 ==> Alphabet[i] == Symbols[i - 62]
  {
    LayoutDecimalDigits();
    LayoutUpperLetters();
    LayoutLowerLetters();
    LayoutSymbols();
  }

  // One lemma per block keeps each proof about the concatenation small.

  lemma LayoutDecimalDigits()
    ensures |Alphabet| == Radix
    ensures forall i :: 0 <= i < 10 ==> Alphabet[i] == DecimalDigits[i]
  {
  }

  lemma LayoutUpperLetters()
    ensures forall i :: 10 <= i < 36 ==> Alphabet[i] == UpperLetters[i - 10]
  {
  }

  lemma LayoutLowerLetters()
    ensures forall i :: 36 <= i < 62 ==> Alphabet[i] == LowerLetters[i - 36]
  {
  }

  lemma LayoutSymbols()
    ensures forall i :: 62 <= i < 83 ==> Alphabet[i] == Symbols[i - 62]
  {
  }

  /** The alphabet has 83 characters and none of them occurs twice, so a
      character's digit value (its position) is well defined. */
  lemma AlphabetDistinct()
    ensures |Alphabet| == Radix
    ensures forall i, j :: 0 <= i < j < |Alphabet| ==> Alphabet[i] != Alphabet[j]
  {
    AlphabetLayout();
    forall i, j | 0 <= i < j < |Alphabet|
      ensures Alphabet[i] != Alphabet[j]
    {
      AlphabetDistinctAt(i, j);
    }
  }

  /** Two different positions of the alphabet hold different characters. */
  lemma AlphabetDistinctAt(i: nat, j: nat)
    requires i < j < Radix
    ensures |Alphabet| == Radix && Alphabet[i] != Alphabet[j]
  {
    AlphanumericBlocks();
    SymbolBlock();
    AlphabetLayout();
  }

  /** The position of the first occurrence of `x` in `s`, or `None` when `x`
      does not occur: the meaning of Rust's `Iterator::position` with an
      equality test. */
  function IndexOf<T(==)>(s: seq<T>, x: T): (r: Option<nat>)
    ensures r.Some? ==> r.value < |s| && s[r.value] == x
    ensures r.Some? ==> forall k :: 0 <= k < r.value ==> s[k] != x
    ensures r.None? <==> x !in s
  {
    if s == [] then None
    else if s[0] == x then Some(0)
    else match IndexOf(s[1..], x)
      case Some(k) => Some(k + 1)
      case None => None
  }

  /** The digit value of `c`: its index in the alphabet, or `None` for a
      character outside the alphabet. */
  function DigitOf(c: char): (r: Option<nat>)
    ensures r.Some? ==> r.value < Radix && Alphabet[r.value] == c
    ensures r.None? <==> c !in Alphabet
  {
    IndexOf(Alphabet, c)
  }

  /** One iteration of the decoding loop: fold `c` into the accumulator if it
      is a digit, skip it otherwise. */
  function Fold(value: nat, c: char): (r: nat)
  {
    match DigitOf(c)
    case Some(digit) => value * Radix + digit
    case None => value
  }

  /** The value of `s` read as a base-83 numeral, most-significant digit
      first, ignoring characters outside the alphabet: a left fold of `Fold`
      (Horner's rule) starting from 0. */
  function Decode(s: string): (r: nat)
  {
    if s == [] then 0 else Fold(Decode(s[..|s| - 1]), s[|s| - 1])
  }

  /** Decoding one more character of a prefix is one more `Fold`. */
  lemma DecodeNextPrefix(s: string, i: nat)
    requires i < |s|
    ensures Decode(s[..i + 1]) == Fold(Decode(s[..i]), s[i])
  {
    assert s[..i + 1][..i] == s[..i];
  }

  /** `Iterator::position` with an equality test, as the source uses it on
      the alphabet for every input character: a linear search from the front. */
  method Position<T(==)>(s: seq<T>, x: T) returns (r: Option<nat>)
    ensures r == IndexOf(s, x)
  {
    var i := 0;
    while i < |s|
      invariant 0 <= i <= |s|
      invariant forall k :: 0 <= k < i ==> s[k] != x
    {
      if s[i] == x {
        return Some(i);
      }
      i := i + 1;
    }
    return None;
  }

  /** The source's per-character lookup `ENCODE_CHARACTERS.chars().position(..)`:
      the digit value of `c`, or `None` when `c` is not in the alphabet. */
  method FindDigit(c: char) returns (digit: Option<nat>)
    ensures digit == DigitOf(c)
  {
    digit := Position(Alphabet, c);
  }

  /** `decode_base83_string`: walks the string left to right with a mutable
      accumulator; the result is the base-83 value of the string. */
  method DecodeBase83String(s: string) returns (value: nat)
    ensures value == Decode(s)
  {
    value := 0;
    var i := 0;
    while i < |s|
      invariant 0 <= i <= |s|
      invariant value == Decode(s[..i])
    {
      var position := FindDigit(s[i]);
      if position.Some? {
        value := value * Radix + position.value;
      }
      DecodeNextPrefix(s, i);
      i := i + 1;
    }
    assert s[..i] == s;
  }
}
