# Fixture-program utilities, modelled in Dafny

The bin-diff repository compares two builds of one program. The program it
builds for this is a small C++ demo (`test-program/`). This project models
the two files of that demo that hold logic:

- `string_utils.dfy` (module `StringUtils`) models `test-program/src/string_utils.cpp`:
  - `to_upper` and `to_lower` copy the input into a buffer and rewrite it in
    place with `std::transform`. Here that is an `array<char>` and the method
    `Transform`.
  - `trim` strips `" \t\n\r"` from both ends using `find_first_not_of`,
    `find_last_not_of` and `substr`. Each of those library members is a
    function of its own, and `npos` is the `Npos` case of `Pos`.
  - `starts_with` and `ends_with` guard on length, then call `compare` on a
    `substr`.
- `math_utils.dfy` (module `MathUtils`) models `test-program/src/math_utils.cpp`:
  - `add` and `multiply` work on the 32-bit newtype `Int32`. Signed overflow
    is undefined behaviour in C++, so their preconditions require the exact
    result to fit in an `int`.
  - `compute_stats` is a method. Its loop keeps the running sum, minimum and
    maximum, starting from the `INT_MAX` / `INT_MIN` sentinels.
  - `is_strictly_increasing` is a method with an early exit. Its loop starts
    at index 2, as the code does, so the pair `(values[0], values[1])` is
    never compared. The model states what the code does, not what the name
    promises. The lemmas relate the two, and `[5, 1]` is accepted.

A C++ `std::string` is a Dafny `string`. Case mapping is that of the "C"
locale: only `'a'..'z'` and `'A'..'Z'` change.

## Model

| member | source | states |
|---|---|---|
| `StringUtils.UpperChar` | test-program/src/string_utils.cpp:9 | `toupper` of one character: its result is never a lower-case ASCII letter; non-lower-case input is unchanged; a lower-case letter becomes the upper-case letter at the same place in the alphabet (code - 32), which `tolower` maps back to it |
| `StringUtils.LowerChar` | test-program/src/string_utils.cpp:16 | `tolower` of one character: its result is never an upper-case ASCII letter; non-upper-case input is unchanged; an upper-case letter becomes the lower-case letter at the same place in the alphabet (code + 32) |
| `StringUtils.Transform` | test-program/src/string_utils.cpp:8-9 | `std::transform` in place: every cell of the buffer becomes `f` of its old content |
| `StringUtils.ToUpper` | test-program/src/string_utils.cpp:6-11 | the result is `Upper(input)`: the input's length, each character the upper-case mapping of the input character at that index |
| `StringUtils.ToLower` | test-program/src/string_utils.cpp:13-18 | the result is `Lower(input)`: the input's length, each character the lower-case mapping of the input character at that index |
| `StringUtils.UpperIdempotent` | test-program/src/string_utils.cpp:6-11 | upper-casing twice equals upper-casing once |
| `StringUtils.LowerIdempotent` | test-program/src/string_utils.cpp:13-18 | lower-casing twice equals lower-casing once |
| `StringUtils.CaseMappingsClassify` | test-program/src/string_utils.cpp:6-18 | `to_upper` leaves no lower-case ASCII letter and `to_lower` no upper-case one; characters that are not ASCII letters are kept by both |
| `StringUtils.LowerAfterUpper` | test-program/src/string_utils.cpp:6-18 | `to_lower(to_upper(s)) == to_lower(s)` |
| `StringUtils.UpperAfterLower` | test-program/src/string_utils.cpp:6-18 | `to_upper(to_lower(s)) == to_upper(s)` |
| `StringUtils.FindFirstNotOf` | test-program/src/string_utils.cpp:21 | `npos` exactly when every character is in the set; otherwise an in-range index whose character is outside the set, with every earlier character inside it |
| `StringUtils.FindLastNotOf` | test-program/src/string_utils.cpp:25 | `npos` exactly when every character is in the set; otherwise an in-range index whose character is outside the set, with every later character inside it |
| `StringUtils.Substr` | test-program/src/string_utils.cpp:26 | for `pos <= size`, returns `min(count, size - pos)` characters, and character `k` is `s[pos + k]` |
| `StringUtils.Compare` | test-program/src/string_utils.cpp:33 | the three-way result is zero exactly when the strings are equal; a proper prefix orders first |
| `StringUtils.Trim` | test-program/src/string_utils.cpp:20-27 | empty exactly when the input is empty or all of `" \t\n\r"`; otherwise its first and last characters are not whitespace |
| `StringUtils.TrimIsSlice` | test-program/src/string_utils.cpp:21-26 | the trim is a contiguous slice `s[i..j]` of the input; everything before `i` and from `j` on is whitespace |
| `StringUtils.TrimIdempotent` | test-program/src/string_utils.cpp:20-27 | `trim(trim(s)) == trim(s)` |
| `StringUtils.TrimOfTrimmed` | test-program/src/string_utils.cpp:20-27 | a non-empty string that neither starts nor ends with whitespace is its own trim |
| `StringUtils.TrimCharacterized` | test-program/src/string_utils.cpp:20-27 | trim is exactly the slice `s[i..j]` whose surroundings are whitespace and whose end characters are not; this describes trim independently of the code |
| `StringUtils.TrimPadded` | test-program/src/string_utils.cpp:20-27 | adding whitespace before or after a string does not change its trim |
| `StringUtils.StartsWith` | test-program/src/string_utils.cpp:29-34 | false when the prefix is longer than the string; otherwise true iff `str[..|prefix|] == prefix` |
| `StringUtils.EndsWith` | test-program/src/string_utils.cpp:36-41 | false when the suffix is longer than the string; otherwise true iff `str[|str| - |suffix|..] == suffix`; the start index never goes below zero |
| `StringUtils.EmptyAffixes` | test-program/src/string_utils.cpp:29-41 | every string starts and ends with `""` |
| `StringUtils.StartsWithConcat` | test-program/src/string_utils.cpp:29-34 | `starts_with(s, p)` iff `s` is `p` followed by the rest of `s` |
| `StringUtils.EndsWithConcat` | test-program/src/string_utils.cpp:36-41 | `ends_with(s, x)` iff `s` is the rest of `s` followed by `x` |
| `StringUtils.EndsWithIsReversedStartsWith` | test-program/src/string_utils.cpp:29-41 | `ends_with(s, x)` iff `starts_with(reverse(s), reverse(x))` |
| `MathUtils.Add` | test-program/src/math_utils.cpp:5-7 | when the exact sum fits in a 32-bit `int`, the result is that exact sum |
| `MathUtils.Multiply` | test-program/src/math_utils.cpp:9-11 | when the exact product fits in a 32-bit `int`, the result is that exact product |
| `MathUtils.SumBounds` | test-program/src/math_utils.cpp:22-27 | the sum of n `int`s lies in `[n * INT_MIN, n * INT_MAX]`, and for fewer than 2^32 values it lies in the 64-bit `long long` range, so the accumulator cannot overflow |
| `MathUtils.SumSnoc` | test-program/src/math_utils.cpp:26-27 | one more loop step adds the next value to the running sum |
| `MathUtils.ComputeStats` | test-program/src/math_utils.cpp:13-36 | empty input gives mean, min and max 0. Otherwise: min is one of the values and at most every value; max is one of the values and at least every value; mean is sum / count |
| `MathUtils.IsStrictlyIncreasing` | test-program/src/math_utils.cpp:39-51 | true for size at most 1; otherwise true iff `values[i - 1] < values[i]` for every `i` in `[2, size)`, so the first pair is never checked |
| `MathUtils.AcceptsStrictlyIncreasing` | test-program/src/math_utils.cpp:45-50 | every truly strictly increasing vector is accepted |
| `MathUtils.AcceptedIffTailIncreasing` | test-program/src/math_utils.cpp:40-50 | a vector is accepted iff its size is at most 1 or everything after its first element is strictly increasing |
| `MathUtils.AcceptedIffIncreasingWhenFirstPairOrdered` | test-program/src/math_utils.cpp:40-50 | for size at least 2, strictly increasing iff accepted and `values[0] < values[1]` |
| `MathUtils.FirstPairUnchecked` | test-program/src/math_utils.cpp:44-46 | `[5, 1]` is accepted although it is not strictly increasing |

## Left out

- `test-program/src/main.cpp`: argument parsing with `std::stoi`, its exception handling, and console output. This is I/O around the utilities.
- `test-program/src/logger.cpp`: prints prefixed messages to stdout, with the prefix chosen by the `VERBOSE_LOGS` macro. This is pure I/O.
- `test-program/include/math_utils.h` and `string_utils.h` hold declarations only. Their signatures appear as the Dafny signatures, and the `Stats` struct as the `Stats` datatype.
- `UpperChar` / `LowerChar`: locale-dependent case mapping is not modelled. Only the "C" locale is, where only ASCII letters change. A C++ `char` is a byte, while a Dafny `char` is a Unicode scalar value; the model makes no claim about encodings.
- `ComputeStats`: the `mean` field is the exact rational quotient `sum / count`. The rounding of the `double` conversion and of the division is not modelled. The `Stats` fields are `double`; `min` and `max` are kept as integers, which a `double` holds exactly for `int` inputs.
- `ComputeStats`: the `long long` accumulator is an unbounded integer. `SumBounds` shows it cannot overflow with fewer than 2^32 values. Longer vectors are not modelled.
- `Compare`: `std::string::compare` may return any negative or positive value. The model returns -1, 0 or 1. The callers only test for zero.
- `Substr`: the `std::out_of_range` exception for `pos > size()` is a precondition here. No caller in the model can reach it.
