/** Properties of the base-83 decoder of src/lib.rs: how the value grows as
    characters are appended, that characters outside the alphabet never
    matter, that the value is the positional sum of its digits, bounds, and
    when the source's `usize` accumulator is wide enough, on 64-bit targets
    and on the 32-bit wasm32 target. */
module Base83Lemmas {
  import opened Wrappers
  import opened Base83

  /** 83 to the power `n`: the number of values an `n`-digit numeral can take. */
  function Pow(n: nat): (r: nat)
    ensures r >= 1
  {
    if n == 0 then 1 else Radix * Pow(n - 1)
  }

  /** The exclusive upper bound of a 64-bit `usize` (a native 64-bit build). */
  const Usize64Limit: nat := 0x1_0000_0000_0000_0000

  /** The exclusive upper bound of a 32-bit `usize` (a wasm32 build). */
  const Usize32Limit: nat := 0x1_0000_0000

  /** `s` with every character outside the alphabet removed. */
  function AlphabetOnly(s: string): (r: string)
    ensures |r| <= |s|
  {
    if s == [] then []
    else
      var init, last := s[..|s| - 1], s[|s| - 1];
      if DigitOf(last).Some? then AlphabetOnly(init) + [last] else AlphabetOnly(init)
  }

  /** The digit values of the alphabet characters of `s`, in order. */
  function Digits(s: string): (r: seq<nat>)
    ensures |r| == |AlphabetOnly(s)|
    ensures forall i :: 0 <= i < |r| ==> r[i] < Radix
  {
    if s == [] then []
    else
      match DigitOf(s[|s| - 1])
      case Some(d) => Digits(s[..|s| - 1]) + [d]
      case None => Digits(s[..|s| - 1])
  }

  /** The positional value of a digit sequence, most-significant first:
      the sum of `ds[i] * 83^(|ds| - 1 - i)`. */
  function Positional(ds: seq<nat>): (r: nat)
  {
    if ds == [] then 0 else ds[0] * Pow(|ds| - 1) + Positional(ds[1..])
  }

  /** A non-empty sequence is its prefix without the last element followed
      by that element. */
  lemma SplitLast<T>(s: seq<T>)
    requires s != []
    ensures s == s[..|s| - 1] + [s[|s| - 1]]
  {
  }

  /** In a sequence without repetitions, searching for the element at index
      `i` finds `i`. */
  lemma IndexOfDistinct<T>(s: seq<T>, i: nat)
    requires i < |s|
    requires forall p, q :: 0 <= p < q < |s| ==> s[p] != s[q]
    ensures IndexOf(s, s[i]) == Some(i)
  {
    assert s[i] in s;
  }

  /** A character's digit value is its index in the alphabet. */
  lemma DigitOfIndex(i: nat)
    requires i < |Alphabet|
    ensures DigitOf(Alphabet[i]) == Some(i)
  {
    AlphabetDistinct();
    IndexOfDistinct(Alphabet, i);
  }

  /** The empty string decodes to 0: the accumulator starts at 0 and no
      character changes it. */
  lemma DecodeEmpty()
    ensures Decode("") == 0
  {
  }

  /** The vectors of the source's test `it_decodes_size_flag`. */
  lemma DecodeSizeFlagVectors()
    ensures Decode("L") == 21
    ensures Decode("0") == 0
  {
    assert Alphabet[21] == 'L' && Alphabet[0] == '0';
    DigitOfIndex(21);
    DigitOfIndex(0);
    assert "L"[..0] == "0"[..0] == "";
  }

  /** The vector of the source's test `decodes_size_0_out_of_range`: a
      character outside the alphabet decodes to 0. */
  lemma DecodeOutOfRangeVector()
    ensures Decode("/") == 0
  {
    AlphanumericBlocks();
    AlphabetLayout();
    assert '/' !in Symbols;
    assert '/' !in Alphabet;
    assert "/"[..0] == "";
  }

  /** Appending a digit multiplies the value by 83 and adds the digit;
      appending any other character leaves it unchanged. */
  lemma DecodeAppend(s: string, c: char)
    ensures DigitOf(c).Some? ==> Decode(s + [c]) == Decode(s) * Radix + DigitOf(c).value
    ensures DigitOf(c).None? ==> Decode(s + [c]) == Decode(s)
  {
    DecodeSnoc(s, c);
  }

  /** A one-character string decodes to that character's digit, or to 0 when
      it is not in the alphabet; either way the value is below 83. */
  lemma DecodeSingle(c: char)
    ensures Decode([c]) < Radix
    ensures Decode([c]) == if c in Alphabet then DigitOf(c).value else 0
  {
    DecodeAppend([], c);
    assert [] + [c] == [c];
  }

  /** Characters outside the alphabet do not contribute to the value. */
  lemma {:induction false} DecodeIgnoresForeign(s: string)
    ensures Decode(s) == Decode(AlphabetOnly(s))
  {
    if s != [] {
      var init, last := s[..|s| - 1], s[|s| - 1];
      SplitLast(s);
      DecodeIgnoresForeign(init);
      DecodeAppend(init, last);
      DecodeAppend(AlphabetOnly(init), last);
    }
  }

  /** Filtering keeps exactly the alphabet characters: everything it returns
      is a digit, and a string made only of digits is returned unchanged. */
  lemma {:induction false} AlphabetOnlyDigits(s: string)
    ensures forall i :: 0 <= i < |AlphabetOnly(s)| ==> DigitOf(AlphabetOnly(s)[i]).Some?
    ensures (forall i :: 0 <= i < |s| ==> DigitOf(s[i]).Some?) ==> AlphabetOnly(s) == s
  {
    if s != [] {
      var init, last := s[..|s| - 1], s[|s| - 1];
      SplitLast(s);
      AlphabetOnlyDigits(init);
      assert forall i :: 0 <= i < |init| ==> init[i] == s[i];
    }
  }

  /** Inserting a character outside the alphabet anywhere in a string does
      not change its value. */
  lemma DecodeIgnoresInsertedForeign(s: string, c: char, t: string)
    requires c !in Alphabet
    ensures Decode(s + [c] + t) == Decode(s + t)
  {
    DecodeConcat(s + [c], t);
    DecodeConcat(s, t);
    DecodeSnoc(s, c);
  }

  /** A string with `k` alphabet characters decodes to a value below 83^k. */
  lemma {:induction false} DecodeBound(s: string)
    ensures Decode(s) < Pow(|AlphabetOnly(s)|)
  {
    if s != [] {
      var init, last := s[..|s| - 1], s[|s| - 1];
      SplitLast(s);
      DecodeBound(init);
      DecodeAppend(init, last);
      if DigitOf(last).Some? {
        ShiftBound(Decode(init), DigitOf(last).value, Pow(|AlphabetOnly(init)|));
      }
    }
  }

  /** Decoding a concatenation: the value of the left part is shifted by one
      base-83 place per alphabet character of the right part. */
  lemma {:induction false} DecodeConcat(s: string, t: string)
    ensures Decode(s + t) == Decode(s) * Pow(|AlphabetOnly(t)|) + Decode(t)
  {
    if t != [] {
      var init, last := t[..|t| - 1], t[|t| - 1];
      SplitLast(t);
      DecodeConcat(s, init);
      DecodeConcatStep(s, init, last);
    } else {
      DecodeConcatNil(s, t);
    }
  }

  /** The base case of `DecodeConcat`: nothing on the right. */
  lemma DecodeConcatNil(s: string, t: string)
    requires t == []
    ensures Decode(s + t) == Decode(s) * Pow(|AlphabetOnly(t)|) + Decode(t)
  {
    assert s + t == s;
  }

  /** The inductive step of `DecodeConcat`: one more character on the right. */
  lemma DecodeConcatStep(s: string, init: string, last: char)
    requires Decode(s + init) == Decode(s) * Pow(|AlphabetOnly(init)|) + Decode(init)
    ensures Decode(s + (init + [last])) == Decode(s) * Pow(|AlphabetOnly(init + [last])|) + Decode(init + [last])
  {
    var x, y, k := Decode(s), Decode(init), |AlphabetOnly(init)|;
    assert s + (init + [last]) == (s + init) + [last];
    DecodeSnoc(s + init, last);
    DecodeSnoc(init, last);
    AlphabetOnlySnoc(init, last);
    FoldShift(x, Pow(k), y, last);
  }

  /** Decoding one more character is one more `Fold`: `DecodeNextPrefix`
      read on `s + [c]`. */
  lemma DecodeSnoc(s: string, c: char)
    ensures Decode(s + [c]) == Fold(Decode(s), c)
  {
    var t := s + [c];
    DecodeNextPrefix(t, |s|);
    assert t[..|s|] == s && t[..|s| + 1] == t;
  }

  /** Filtering distributes over concatenation: the filter keeps the
      alphabet characters of each part, in order, and nothing else. */
  lemma {:induction false} AlphabetOnlyConcat(s: string, t: string)
    ensures AlphabetOnly(s + t) == AlphabetOnly(s) + AlphabetOnly(t)
  {
    if t == [] {
      assert s + t == s;
    } else {
      var init, last := t[..|t| - 1], t[|t| - 1];
      SplitLast(t);
      AlphabetOnlyConcat(s, init);
      assert s + t == (s + init) + [last];
      SplitLast(s + t);
      if DigitOf(last).Some? {
        assert AlphabetOnly(s) + (AlphabetOnly(init) + [last])
            == (AlphabetOnly(s) + AlphabetOnly(init)) + [last];
      }
    }
  }

  /** Filtering one more character keeps it exactly when it is a digit. */
  lemma AlphabetOnlySnoc(s: string, c: char)
    ensures |AlphabetOnly(s + [c])| == |AlphabetOnly(s)| + (if DigitOf(c).Some? then 1 else 0)
  {
    assert (s + [c])[..|s|] == s;
  }

  /** Folding a character into `x * p + y` shifts `x` by one more place
      exactly when the character is a digit. */
  lemma FoldShift(x: nat, p: nat, y: nat, c: char)
    ensures Fold(x * p + y, c) == x * (if DigitOf(c).Some? then Radix * p else p) + Fold(y, c)
  {
    if DigitOf(c).Some? {
      ShiftAdd(x, p, y, DigitOf(c).value);
    }
  }

  /** A leading '0' does not change the value. */
  lemma DecodeLeadingZero(s: string)
    ensures Decode("0" + s) == Decode(s)
  {
    DecodeSizeFlagVectors();
    DecodeZeroPrefix("0", s);
  }

  /** More generally, any prefix that decodes to 0 (zeros, characters
      outside the alphabet) can be dropped. */
  lemma DecodeZeroPrefix(zero: string, s: string)
    requires Decode(zero) == 0
    ensures Decode(zero + s) == Decode(s)
  {
    DecodeConcat(zero, s);
  }

  /** Appending a digit to a digit sequence: the positional value moves one
      place up and the digit is added. */
  lemma {:induction false} PositionalAppend(ds: seq<nat>, d: nat)
    ensures Positional(ds + [d]) == Positional(ds) * Radix + d
  {
    if ds == [] {
      assert [] + [d] == [d];
      assert [d][1..] == [];
    } else {
      var rest := ds[1..];
      assert (ds + [d])[1..] == rest + [d];
      PositionalAppend(rest, d);
      ShiftAdd(ds[0], Pow(|rest|), Positional(rest), d);
    }
  }

  /** An independent reading of the decoder: the value is the positional sum
      of the digit values of the alphabet characters. */
  lemma {:induction false} DecodeIsPositional(s: string)
    ensures Decode(s) == Positional(Digits(s))
  {
    if s != [] {
      var init, last := s[..|s| - 1], s[|s| - 1];
      SplitLast(s);
      DecodeIsPositional(init);
      DecodeAppend(init, last);
      if DigitOf(last).Some? {
        PositionalAppend(Digits(init), DigitOf(last).value);
      }
    }
  }

  /** Two numerals of the same length written only with alphabet characters
      decode to the same value only if they are the same string. */
  lemma {:induction false} DecodeInjective(s: string, t: string)
    requires |s| == |t|
    requires forall i :: 0 <= i < |s| ==> DigitOf(s[i]).Some?
    requires forall i :: 0 <= i < |t| ==> DigitOf(t[i]).Some?
    requires Decode(s) == Decode(t)
    ensures s == t
  {
    if s != [] {
      var n := |s| - 1;
      SplitLast(s);
      SplitLast(t);
      DecodeAppend(s[..n], s[n]);
      DecodeAppend(t[..n], t[n]);
      var a, d := Decode(s[..n]), DigitOf(s[n]).value;
      var b, e := Decode(t[..n]), DigitOf(t[n]).value;
      DivModUnique(a, d, b, e);
      DecodeInjective(s[..n], t[..n]);
    }
  }

  /** Base-83 division with remainder is unique. */
  lemma DivModUnique(a: nat, d: nat, b: nat, e: nat)
    requires d < Radix && e < Radix
    requires a * Radix + d == b * Radix + e
    ensures a == b && d == e
  {
    if a < b {
      ShiftBound(a, d, b);
    } else if b < a {
      ShiftBound(b, e, a);
    }
  }

  /** A value below `p` with one more digit appended stays below `p * 83`. */
  lemma ShiftBound(a: nat, d: nat, p: nat)
    requires a < p && d < Radix
    ensures a * Radix + d < p * Radix
  {
    assert (a + 1) * Radix <= p * Radix;
  }

  /** Appending a digit after a shifted value distributes over the shift. */
  lemma ShiftAdd(x: nat, p: nat, y: nat, d: nat)
    ensures (x * p + y) * Radix + d == x * (Radix * p) + (y * Radix + d)
  {
  }

  /** The accumulator never decreases: every prefix decodes to at most the
      value of the whole string. */
  lemma {:induction false} DecodePrefixMonotone(s: string, i: nat)
    requires i <= |s|
    ensures Decode(s[..i]) <= Decode(s)
    decreases |s| - i
  {
    if i < |s| {
      assert s[..i + 1] == s[..i] + [s[i]];
      DecodeAppend(s[..i], s[i]);
      DecodePrefixMonotone(s, i + 1);
    } else {
      assert s[..i] == s;
    }
  }

  /** With at most ten alphabet characters, every value the source's
      accumulator takes (the decoded value of each prefix, which is also the
      result of each `value * 83 + digit`) fits in a 64-bit `usize`. */
  lemma FitsInUsize64(s: string)
    requires |AlphabetOnly(s)| <= 10
    ensures forall i :: 0 <= i <= |s| ==> Decode(s[..i]) < Usize64Limit
  {
    PrefixesBelowPow(s, 10);
    assert Pow(10) < Usize64Limit;
  }

  /** On the 32-bit wasm32 target, every value the accumulator takes fits in
      a `usize` when the string has at most five alphabet characters. */
  lemma FitsInUsize32(s: string)
    requires |AlphabetOnly(s)| <= 5
    ensures forall i :: 0 <= i <= |s| ==> Decode(s[..i]) < Usize32Limit
  {
    PrefixesBelowPow(s, 5);
    assert Pow(5) < Usize32Limit;
  }

  /** The widest numeral of a BlurHash, the four-digit DC value, stays below
      83^4 = 47458321 at every step, so it fits a `usize` of either width. */
  lemma FourDigitFieldFits(s: string)
    requires |AlphabetOnly(s)| <= 4
    ensures forall i :: 0 <= i <= |s| ==> Decode(s[..i]) < 47458321
    ensures 47458321 < Usize32Limit < Usize64Limit
  {
    PrefixesBelowPow(s, 4);
    assert Pow(4) == 47458321;
  }

  /** With at most `n` alphabet characters, every prefix decodes below 83^n. */
  lemma PrefixesBelowPow(s: string, n: nat)
    requires |AlphabetOnly(s)| <= n
    ensures forall i :: 0 <= i <= |s| ==> Decode(s[..i]) < Pow(n)
  {
    DecodeBound(s);
    PowMonotone(|AlphabetOnly(s)|, n);
    forall i | 0 <= i <= |s|
      ensures Decode(s[..i]) < Pow(n)
    {
      DecodePrefixMonotone(s, i);
    }
  }

  /** More digits never allow fewer values. */
  lemma {:induction false} PowMonotone(m: nat, n: nat)
    requires m <= n
    ensures Pow(m) <= Pow(n)
    decreases n
  {
    if m < n {
      PowMonotone(m, n - 1);
    }
  }

  /** A string of `n` copies of the largest digit '~' decodes to 83^n - 1, the
      largest `n`-digit value, so the bound of `DecodeBound` is reached. */
  lemma {:induction false} DecodeAllMaxDigits(n: nat)
    ensures Decode(seq(n, _ => '~')) == Pow(n) - 1
  {
    if n > 0 {
      var s := seq(n, _ => '~');
      assert s == seq(n - 1, _ => '~') + ['~'];
      DecodeAllMaxDigits(n - 1);
      AlphabetLayout();
      assert Alphabet[82] == '~';
      DigitOfIndex(82);
      DecodeAppend(seq(n - 1, _ => '~'), '~');
    }
  }

  /** Eleven '~' characters already decode to a value that does not fit in a
      64-bit `usize`: `FitsInUsize64` cannot be widened to eleven digits. */
  lemma ElevenMaxDigitsExceedUsize64()
    ensures Decode("~~~~~~~~~~~") >= Usize64Limit
  {
    DecodeAllMaxDigits(11);
    assert seq(11, _ => '~') == "~~~~~~~~~~~";
  }

  /** Six '~' characters already decode to a value that does not fit in a
      32-bit `usize`: on wasm32, `FitsInUsize32` cannot be widened to six
      digits. */
  lemma SixMaxDigitsExceedUsize32()
    ensures Decode("~~~~~~") >= Usize32Limit
  {
    DecodeAllMaxDigits(6);
    assert seq(6, _ => '~') == "~~~~~~";
  }
}
