# Base-83 digit decoder of blurhash-wasm

This project models the base-83 numeral decoder of the Rust BlurHash crate
(`src/lib.rs`) in Dafny and proves its properties.

A BlurHash string is made of base-83 numerals written in a fixed alphabet of 83
printable characters: `0-9`, `A-Z`, `a-z`, then `#$%*+,-.:;=?@[]^_{|}~`. A
character's digit value is its index in that alphabet. `decode_base83_string`
walks its input left to right with a mutable accumulator that starts at 0. For
each character it searches the alphabet linearly. A found digit is folded in as
`value * 83 + digit`. A character outside the alphabet is skipped silently.

The model has two modules:

- `Base83` (`base83.dfy`) holds the alphabet and its distinctness proof. It
  defines the digit lookup `DigitOf` (through the first-index function
  `IndexOf`) and the pure specification `Decode`, a left fold of one `Fold` step
  per character (Horner's rule). It also holds the imperative code as methods:
  `Position`, the linear search; `FindDigit`, that search on the alphabet; and
  `DecodeBase83String`, the source's `for` loop. The loop is proved to compute
  `Decode` for every input.
- `Base83Lemmas` (`base83_lemmas.dfy`) proves properties of `Decode`:
  - the source's unit-test vectors;
  - how appending or prepending characters changes the value;
  - that characters outside the alphabet never matter;
  - that the value equals an independent positional sum of the digits;
  - that the value is injective on equal-length numerals;
  - bounds, and when the source's `usize` accumulator is wide enough. A
    `usize` is as wide as a pointer. The crate is built for wasm32, where it
    has 32 bits, and it has 64 bits on a native 64-bit build. Up to ten
    alphabet characters fit 64 bits and up to five fit 32 bits. BlurHash's
    widest numeral, the four-digit DC value (below 83^4 = 47,458,321),
    fits both.

`wrappers.dfy` holds the `Option` type that the lookup returns.

## Model

| member | source | states |
|---|---|---|
| `Base83.AlphabetDistinct` | src/lib.rs:5-6 | The alphabet has exactly 83 characters, and no two positions hold the same character. |
| `Base83.IndexOf` | src/lib.rs:11 | A search result `Some(k)` is the first index holding the searched element. The result is `None` exactly when the element does not occur. |
| `Base83.DigitOf` | src/lib.rs:11 | A found digit is below 83 and is the position of the character in the alphabet. The lookup fails exactly for characters outside the alphabet. |
| `Base83.Position` | src/lib.rs:11 | The linear search loop returns exactly the first index of the element, or `None` when it is absent. |
| `Base83.FindDigit` | src/lib.rs:11 | The per-character alphabet search returns the character's digit value, or `None` outside the alphabet. |
| `Base83.DecodeBase83String` | src/lib.rs:8-18 | For every input string, the loop's accumulator ends equal to `Decode(s)`, the base-83 value of the string. |
| `Base83Lemmas.DigitOfIndex` | src/lib.rs:11 | Every alphabet character's digit value is its own index, the converse of `DigitOf`'s contract. |
| `Base83Lemmas.DecodeEmpty` | src/lib.rs:9-17 | The empty string decodes to 0. |
| `Base83Lemmas.DecodeSizeFlagVectors` | src/lib.rs:25-28 | `"L"` decodes to 21 and `"0"` decodes to 0. |
| `Base83Lemmas.DecodeOutOfRangeVector` | src/lib.rs:30-33 | `"/"`, which is outside the alphabet, decodes to 0. |
| `Base83Lemmas.DecodeAppend` | src/lib.rs:10-16 | Appending a digit `d` gives `value * 83 + d`. Appending a character outside the alphabet leaves the value unchanged. |
| `Base83Lemmas.DecodeSingle` | src/lib.rs:11-12 | A one-character string decodes to its digit value, or to 0 outside the alphabet. The result is always below 83. |
| `Base83Lemmas.AlphabetOnlyDigits` | src/lib.rs:11-14 | The filtered string holds only alphabet characters. A string made only of alphabet characters is left unchanged by the filter. |
| `Base83Lemmas.AlphabetOnlyConcat` | src/lib.rs:14 | Filtering the concatenation of two strings gives the concatenation of their filtered parts. |
| `Base83Lemmas.DecodeIgnoresForeign` | src/lib.rs:14 | A string decodes to the same value as the string with every character outside the alphabet removed. |
| `Base83Lemmas.DecodeIgnoresInsertedForeign` | src/lib.rs:14 | Inserting a character outside the alphabet at any position leaves the value unchanged. |
| `Base83Lemmas.DecodeBound` | src/lib.rs:11-12 | A string with `k` alphabet characters decodes to a value below `83^k`. |
| `Base83Lemmas.DecodeAllMaxDigits` | src/lib.rs:11-12 | `n` copies of `'~'` (digit 82) decode to `83^n - 1`, so the bound of `DecodeBound` is reached. |
| `Base83Lemmas.DecodeConcat` | src/lib.rs:10-16 | `Decode(s + t) == Decode(s) * 83^k + Decode(t)`, where `k` is the number of alphabet characters in `t`. |
| `Base83Lemmas.DecodeLeadingZero` | src/lib.rs:9-12 | A leading `'0'` does not change the value. |
| `Base83Lemmas.DecodeZeroPrefix` | src/lib.rs:9-12 | Any prefix that decodes to 0 can be dropped without changing the value. |
| `Base83Lemmas.PositionalAppend` | src/lib.rs:12 | In the positional reading, appending a digit shifts the value one place and adds the digit. |
| `Base83Lemmas.DecodeIsPositional` | src/lib.rs:8-18 | The value is the positional sum `Σ d[i] * 83^(n-1-i)` over the digit values `d` of the string's alphabet characters. This is a definition independent of the fold. |
| `Base83Lemmas.DecodeInjective` | src/lib.rs:8-18 | Two equal-length strings made only of alphabet characters have the same value only if they are the same string. |
| `Base83Lemmas.DecodePrefixMonotone` | src/lib.rs:12 | The accumulator never decreases: every prefix decodes to at most the value of the whole string. |
| `Base83Lemmas.FitsInUsize64` | src/lib.rs:9-12 | With at most ten alphabet characters, every value the accumulator takes is below 2^64, so a 64-bit `usize` does not overflow. |
| `Base83Lemmas.ElevenMaxDigitsExceedUsize64` | src/lib.rs:9-12 | Eleven `'~'` characters decode to a value of at least 2^64, so the ten-character bound cannot be widened. |
| `Base83Lemmas.FitsInUsize32` | src/lib.rs:9-12 | With at most five alphabet characters, every value the accumulator takes is below 2^32, so the 32-bit `usize` of a wasm32 build does not overflow. |
| `Base83Lemmas.SixMaxDigitsExceedUsize32` | src/lib.rs:9-12 | Six `'~'` characters decode to a value of at least 2^32, so a wasm32 build overflows from six alphabet characters on. |
| `Base83Lemmas.FourDigitFieldFits` | src/lib.rs:9-12 | With at most four alphabet characters, as in the DC value, every value the accumulator takes is below 83^4 = 47,458,321, which is below 2^32 and 2^64. |

## Left out

- DecodeBase83String: the accumulator is an unbounded `nat`, not Rust's `usize`. The overflow of `value * 83 + digit` is not modelled, neither as the panic of a debug build nor as the wrap-around of a release build. `usize` is as wide as a pointer. `FitsInUsize64` shows that inputs with at most ten alphabet characters never overflow a 64-bit `usize`, and `ElevenMaxDigitsExceedUsize64` shows an eleven-character input that does. On the wasm32 target the crate is built for, `usize` has 32 bits. There `FitsInUsize32` covers at most five alphabet characters, and `SixMaxDigitsExceedUsize32` shows a six-character input that overflows. `FourDigitFieldFits` shows that BlurHash's four-digit DC value fits either width.
- The alphabet constant is written as the concatenation of its four blocks (`0-9`, `A-Z`, `a-z`, symbols). Concatenated, the blocks give the literal at src/lib.rs:5-6. That equality is not stated as a lemma, because the solver cannot index an 83-character literal.
- `decode` at src/lib.rs:3 is not modelled. Its body is empty, so it has no behaviour to state.
- tests/integration_test.rs is not modelled. It calls a `decode(hash, width, height)` and an `Error::LengthInvalid` that `src/lib.rs` does not define. Its golden test loads a PNG through the `image` crate, which is file I/O in a foreign library.
- The BlurHash pipeline is not modelled: length validation, DCT synthesis and analysis, sRGB/linear conversion, AC/DC quantisation, and the base-83 encoder. None of it has a body in `src/lib.rs`, and most of it is floating-point arithmetic.
- demo/App.js and demo/index.js are not modelled. They are browser UI and start-up code.
- Rust `char` and Dafny `char` are both Unicode scalar values. Iterating `string.chars()` is modelled as indexing the `seq<char>` in order. Taking the `String` by value is an ownership detail with no observable effect.
