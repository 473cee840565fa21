# const_format core, modelled in Dafny

A Dafny model of four pieces of the `const_format` crate, a formatting engine
that runs entirely in constant evaluation, and of its argument front end:

- **Integer and string lengths and digit rendering** (`pwrapper.rs`).
  - The length pass counts the bytes a value will take: `compute_display_len`,
    `compute_debug_len`, `hexadecimal_len`, `binary_len`, and the `&str` lengths.
  - The write pass renders digits right to left into fixed arrays of 40, 34
    and 130 bytes, moving a `start` cursor down (`to_start_array_*`).
  - Both passes are proved against one reference text per mode, in
    `IntTypes`: decimal, upper-case hexadecimal and binary, with the
    alternate prefix. So the lengths the first pass counts are exactly the
    bytes the second writes, for every width 8, 16, 32, 64, 128 and the
    word-sized types.
- **Range debug formatting** (`ranges.rs`). The six `usize` range types are
  written over a length accumulator (`FormattingLength`) and an append-only
  writer of fixed capacity (`Formatter`). For each type, the write succeeds
  exactly when the counted length fits, and then appends exactly that many bytes.
- **Format-argument resolution** (`parsing.rs`, `FormatArgs::parse_with`).
  - The naming loop checks that named arguments come last and gives each
    argument its local variable.
  - The resolution pass maps every placeholder to an argument, to an
    in-scope constant, or to a "nonexistent positional argument" error,
    and it flags unused arguments.
  - Both are methods proved against a reference function (`Parse`), and
    the promises of the macro are lemmas about that function.
- **Debug dispatch** (`call_debug_fmt.rs`).
  - The formatter is seen through the calls the `call_debug_fmt!` arms make
    on it (`debug_list`, `entry`, `debug_tuple`, `field`, `finish`,
    `write_str`, a value's `const_debug_fmt`).
  - Whether a fallible call succeeds is a function of the calls before it.
  - Each arm is proved to make its script of calls in order, returning at
    the first error (`Run`).

Modules: `Wrappers` (option type), `Numeric` (powers, digit strings, bit
lengths), `IntTypes` (the integer types, casts, flags, reference texts),
`IntLen` (length pass for integers), `IntRender` (digit renderers), `StrLen`
(string lengths), `Fmt` (accumulator and writer), `Ranges`, `FormatArgs`,
`CallDebugFmt`.

Integers are unbounded in Dafny. The source's fixed widths are written out:
- `as` casts wrap modulo `2^W` (`AsUnsigned`, `AsSigned`);
- `wrapping_abs` keeps `MIN` (`WrappingAbs`);
- `wrapping_neg` on `i128` wraps (`AsNegative`);
- bit operations are the matching arithmetic: `n & 1` is `n % 2`, `n >> 4` is
  `n / 16`, `n & mask` is `n % 2^W`, and `mask & (1 << c) != 0` is bit `c`
  of `mask`.

## Model

| member | source | states |
|---|---|---|
| Numeric.Digits | const_format/src/wrapper_types/pwrapper.rs:320-336 | the digit string of a number in base 2, 10 or 16 is never empty |
| Numeric.DigitByte | const_format/src/wrapper_types/pwrapper.rs:299-303 | a digit value below 16 becomes `'0'..'9'` or upper-case `'A'..'F'`, and reading the byte back gives the value |
| Numeric.DigitsWellFormed | const_format/src/wrapper_types/pwrapper.rs:328-336 | every rendered byte is a digit below the base, and the first digit is `'0'` exactly when the number is zero (no leading zeros) |
| Numeric.LastDigit | const_format/src/wrapper_types/pwrapper.rs:328-336 | the last digit is `n % base`, preceded by the digits of `n / base` unless that is zero |
| Numeric.DigitsRoundTrip | const_format/src/wrapper_types/pwrapper.rs:320-344 | reading a rendered digit string back gives the number |
| Numeric.DigitsLenBound | const_format/src/wrapper_types/pwrapper.rs:44-68 | a number has at most `k` digits exactly when it is below `base^k` |
| Numeric.DigitsShift | const_format/src/wrapper_types/pwrapper.rs:49-65 | dividing by `base^k` removes exactly `k` digits from a number that has more than `k` |
| Numeric.BitLenBound | const_format/src/wrapper_types/pwrapper.rs:28 | `W - leading_zeros` is at most `k` exactly when the value is below `2^k` |
| Numeric.BitLenTight | const_format/src/wrapper_types/pwrapper.rs:28 | the significant bit count is the least `k` with the value below `2^k` |
| Numeric.BinaryDigitsLen | const_format/src/wrapper_types/pwrapper.rs:36-42 | the binary digit string has `W - leading_zeros` digits, or one for zero |
| Numeric.HexDigitsLen | const_format/src/wrapper_types/pwrapper.rs:25-35 | the hexadecimal digit string has `ceil((W - leading_zeros) / 4)` digits, or one for zero |
| Numeric.BitLenDiv16 | const_format/src/wrapper_types/pwrapper.rs:304 | shifting right by 4 removes four significant bits from a value of at least 16 |
| Numeric.Pow2Values | const_format/src/wrapper_types/pwrapper.rs:152-161 | the bounds `2^8` … `2^128` of the integer widths |
| Numeric.Pow10Values | const_format/src/wrapper_types/pwrapper.rs:49-65 | the thresholds `10^2` … `10^16` of the staircase are the literals the code compares against |
| IntTypes.IntType.Word | const_format/src/wrapper_types/pwrapper.rs:163-179 | `usize`/`isize` delegate to the fixed-width type of the same signedness and width (`UWord`, `IWord`) |
| IntTypes.ContainsBounds | const_format/src/wrapper_types/pwrapper.rs:152-161 | a value of a type lies within `2^W` in magnitude, and a negative one is signed with magnitude at most `2^(W-1)` |
| IntTypes.AsUnsigned | const_format/src/wrapper_types/pwrapper.rs:248-253 | the `as` cast to a `W`-bit unsigned type gives a value below `2^W`, unchanged when it already fits |
| IntTypes.AsUnsignedNegative | const_format/src/wrapper_types/pwrapper.rs:248-253 | the bit pattern of a negative value is the value plus `2^W` |
| IntTypes.AsSigned | const_format/src/wrapper_types/pwrapper.rs:116 | the `as` cast to a `W`-bit signed type lies in the signed range, keeps the bit pattern, and leaves a fitting value unchanged |
| IntTypes.AsSignedPattern | const_format/src/wrapper_types/pwrapper.rs:116 | the signed cast is the pattern of `x + 2^(W-1)` shifted back down, and the identity on the signed range |
| IntLen.WrappingAbs | const_format/src/wrapper_types/pwrapper.rs:115-117 | `wrapping_abs` stays in the type and is the magnitude, except that `MIN` maps to itself |
| IntLen.MinWrapsToItself | const_format/src/wrapper_types/pwrapper.rs:115-117 | the magnitude of `MIN` read back as signed is `MIN` |
| IntLen.UnsignedAbs | const_format/src/wrapper_types/pwrapper.rs:115-117 | `unsigned_abs` is the magnitude for every value, `MIN` included, and is below `2^W` |
| IntLen.NumberOfDigits | const_format/src/wrapper_types/pwrapper.rs:44-68 | the staircase started from `n < 2^W` and `len` returns `len - 1` plus the number of decimal digits of `n` |
| IntLen.DigitTier | const_format/src/wrapper_types/pwrapper.rs:49-65 | one tier divides by `10^k` and adds `k` exactly when the tier is present and `n >= 10^k`, keeping `len + digits(n)` and leaving `n` below the next bound |
| IntLen.Tier | const_format/src/wrapper_types/pwrapper.rs:49-65 | dividing by `10^k` drops `k` digits and leaves a value below the next tier's bound |
| IntLen.LastTwoDigits | const_format/src/wrapper_types/pwrapper.rs:64-67 | below 100 a number has two digits exactly when it is at least 10 |
| IntLen.WidthBelowPow10 | const_format/src/wrapper_types/pwrapper.rs:48-65 | every width's values are below the bound its tier of the staircase assumes |
| IntLen.ComputeDisplayLen | const_format/src/wrapper_types/pwrapper.rs:121-125 | signed and unsigned `compute_display_len` is the length of the decimal text: the digits of the magnitude, plus 1 exactly when negative, for every value of every width |
| IntLen.LeadingZeros | const_format/src/wrapper_types/pwrapper.rs:28 | `leading_zeros` of a `W`-bit value is at most `W`, the value fits in `W - r` bits, and its top remaining bit is set |
| IntLen.HexCount | const_format/src/wrapper_types/pwrapper.rs:25-35 | `compute_hex_count!` is the length of the hexadecimal text, at least 3 with the `0x` prefix |
| IntLen.BinaryCount | const_format/src/wrapper_types/pwrapper.rs:36-42 | `compute_binary_count!` is the length of the binary text, at least 3 with the `0b` prefix |
| IntLen.HexadecimalLen | const_format/src/wrapper_types/pwrapper.rs:98-100 | `hexadecimal_len` is the length of the hexadecimal text of the value's own `W`-bit pattern |
| IntLen.BinaryLen | const_format/src/wrapper_types/pwrapper.rs:102-104 | `binary_len` is the length of the binary text of the value's own `W`-bit pattern |
| IntLen.ComputeDebugLen | const_format/src/wrapper_types/pwrapper.rs:87-96 | `compute_debug_len` is the length of the debug text of the flags' mode: decimal, hexadecimal or binary |
| IntLen.WordSizedDelegates | const_format/src/wrapper_types/pwrapper.rs:197-219 | `usize`/`isize` have the debug text, `hexadecimal_len` and `binary_len` of `u64`/`i64` for every value |
| IntLen.DecimalDigitCount | const_format/src/wrapper_types/pwrapper.rs:44-68 | a number between `10^(k-1)` and `10^k` has `k` digits |
| IntLen.LargePow10Values | const_format/tests/misc_tests/shared_cp_macro_tests.rs:55-64 | the powers of ten around the 64-bit and 128-bit limits |
| IntLen.MinMaxTexts8 | const_format/tests/misc_tests/shared_cp_macro_tests.rs:52-60 | `i8::MIN`, `i8::MAX`, `u8::MIN`, `u8::MAX` render as `-128`, `127`, `0`, `255` |
| IntLen.MinMaxLengths8 | const_format/tests/misc_tests/shared_cp_macro_tests.rs:52-60 | the display lengths of the 8-bit `MIN`/`MAX` are 4, 3, 1, 3 |
| IntLen.MinMaxLengths16 | const_format/tests/misc_tests/shared_cp_macro_tests.rs:53-61 | the display lengths of the 16-bit `MIN`/`MAX` are 6, 5, 1, 5 |
| IntLen.MinMaxLengths32 | const_format/tests/misc_tests/shared_cp_macro_tests.rs:54-62 | the display lengths of the 32-bit `MIN`/`MAX` are 11, 10, 1, 10 |
| IntLen.MinMaxLengths64 | const_format/tests/misc_tests/shared_cp_macro_tests.rs:55-63 | the display lengths of the 64-bit `MIN`/`MAX` are 20, 19, 1, 20 |
| IntLen.MinMaxLengths128 | const_format/tests/misc_tests/shared_cp_macro_tests.rs:56-64 | the display lengths of the 128-bit `MIN`/`MAX` are 40, 39, 1, 39 |
| IntLen.MinMaxWordSized | const_format/tests/misc_tests/shared_cp_macro_tests.rs:57-65 | `isize`/`usize` have the limits of `i64`/`u64` |
| IntRender.IntegerOf | const_format/src/wrapper_types/pwrapper.rs:247-251 | the type-erased integer is negative exactly when the value is, holds its magnitude as a `u128` and the mask of its width |
| IntRender.AsNegative | const_format/src/wrapper_types/pwrapper.rs:238-243 | `as_negative` has the `u128` pattern `2^128 - unsigned`, and 0 for zero |
| IntRender.NegatedPattern | const_format/src/wrapper_types/pwrapper.rs:240-242 | negating a `W`-bit pattern read as signed, with wrap-around, gives the pattern `2^W - u` |
| IntRender.Unmasked | const_format/src/wrapper_types/pwrapper.rs:247-251 | the value the hex and binary renderers start from is a `u128` |
| IntRender.Pattern | const_format/src/wrapper_types/pwrapper.rs:253 | `n & mask` lies below `2^W` |
| IntRender.TwosComplement | const_format/src/wrapper_types/pwrapper.rs:247-253 | for every value of every type, the masked pattern is the value's own `W`-bit two's complement |
| IntRender.ShiftByLimit | const_format/src/wrapper_types/pwrapper.rs:248-253 | masking to `W <= 128` bits ignores the `2^128` added by the `u128` cast |
| IntRender.DisplayOfErased | const_format/src/wrapper_types/pwrapper.rs:326-341 | the erased value's sign and digits are the value's decimal text |
| IntRender.Push | const_format/src/wrapper_types/pwrapper.rs:261-263 | `out.start -= 1; out.array[out.start] = b` puts `b` in front of the rendered bytes without changing the array's size |
| IntRender.PatternDigitBounds | const_format/src/wrapper_types/pwrapper.rs:255-258 | the masked pattern has at most 128 binary and 32 hexadecimal digits, so the cursor never underflows |
| IntRender.MagnitudeDigitBound | const_format/src/wrapper_types/pwrapper.rs:321-324 | a `u128` magnitude has at most 39 decimal digits |
| IntRender.DigitStep | const_format/src/wrapper_types/pwrapper.rs:328-336 | writing the last digit in front and dividing by the base leaves the full digit string once the rest is rendered |
| IntRender.ToStartArrayBinary | const_format/src/wrapper_types/pwrapper.rs:246-278 | `array[start..130]` is the binary text of the masked pattern, `"0b"` exactly when alternate, and `start` never underflows |
| IntRender.ToStartArrayHexadecimal | const_format/src/wrapper_types/pwrapper.rs:280-318 | `array[start..34]` is the upper-case hexadecimal text of the masked pattern, `"0x"` exactly when alternate, and `start` never underflows |
| IntRender.ToStartArrayDisplay | const_format/src/wrapper_types/pwrapper.rs:320-344 | `array[start..40]` is `'-'` exactly when negative, then the decimal digits of the magnitude, and `start` never underflows |
| IntRender.ToStartArrayDebug | const_format/src/wrapper_types/pwrapper.rs:346-349 | the debug rendering is the display rendering |
| IntRender.RenderingsMatchDebugText | const_format/src/wrapper_types/pwrapper.rs:246-349 | for every value of every type, the three renderings of the erased value are its debug text in regular, hexadecimal and binary mode |
| IntRender.RenderedLengths | const_format/src/wrapper_types/pwrapper.rs:98-104 | the hexadecimal and binary renderings are exactly `hexadecimal_len` and `binary_len` bytes long |
| IntRender.ThirteenRenderings | const_format/tests/misc_tests/writec_macro.rs:57 | 13 renders as `13`, `0xD` and `0b1101` with the alternate flag |
| IntRender.ThirteenDigits | const_format/tests/misc_tests/writec_macro.rs:57 | the decimal, hexadecimal and binary digits of 13 |
| IntRender.MinusOneRendering | const_format/src/wrapper_types/pwrapper.rs:247-253 | `-1i8` renders as `FF` in hexadecimal, its 8-bit pattern |
| IntRender.PatternOfSmall | const_format/src/wrapper_types/pwrapper.rs:247-253 | a non-negative value below 256 is its own pattern in any width of 8 bits or more |
| StrLen.NumericEscapes | const_format/src/wrapper_types/pwrapper.rs:357-361 | at most one numeric escape per byte |
| StrLen.BackslashEscapes | const_format/src/wrapper_types/pwrapper.rs:357-363 | at most one backslash escape per byte |
| StrLen.ComputeUtf8DebugLen | const_format/src/wrapper_types/pwrapper.rs:353-370 | `compute_utf8_debug_len` is the byte length plus 2, plus 3 per numeric escape and 1 per backslash escape, bytes of 128 or more adding nothing |
| StrLen.StrComputeDebugLen | const_format/src/wrapper_types/pwrapper.rs:376-378 | a `&str`'s debug length is the debug length of its bytes, whatever the flags, and at least its display length plus the quotes |
| StrLen.StrComputeDisplayLen | const_format/src/wrapper_types/pwrapper.rs:382-384 | a `&str`'s display length is its byte length whatever the flags |
| StrLen.EscapeCountBound | const_format/src/wrapper_types/pwrapper.rs:355-368 | escapes are counted at most once per byte, and none when no byte is escaped |
| StrLen.DebugLenBounds | const_format/src/wrapper_types/pwrapper.rs:353-370 | the debug length lies between the byte length plus 2 and four times it plus 2, and is the byte length plus 2 exactly when nothing is escaped |
| StrLen.DebugLenConcat | const_format/src/wrapper_types/pwrapper.rs:355-368 | the escapes of a concatenation add up, so the debug lengths add up less one pair of quotes |
| StrLen.DebugLenExample | const_format/tests/misc_tests/writec_macro.rs:50-57 | `"foo\nbar\tbaz\x00"` has debug length 19 for any table that escapes `\n` and `\t` with a backslash and NUL numerically |
| StrLen.ExamplePieces | const_format/tests/misc_tests/writec_macro.rs:50-57 | the words of that string add only quotes, `\n` and `\t` add one byte each, NUL adds three |
| StrLen.Unescaped | const_format/src/wrapper_types/pwrapper.rs:357-368 | a string with no escaped byte adds only its quotes |
| StrLen.SingleByte | const_format/src/wrapper_types/pwrapper.rs:356-366 | one byte renders as itself, a two-byte escape or a four-byte escape, within quotes |
| Fmt.FormattingLength.AddLen | const_format/src/wrapper_types/pwrapper.rs:78-81 | `add_len` adds exactly `n` to the counted length |
| Fmt.Formatter.WriteBytes | const_format/src/fmt/std_type_impls/ranges.rs:38-42 | a write appends its bytes when they fit, and otherwise fails and writes nothing |
| Fmt.WriteAllSpec | const_format/src/fmt/std_type_impls/ranges.rs:38-43 | writing pieces under `try_!` succeeds exactly when all of them fit together and then appends their concatenation; a failure keeps the pieces before the first that did not fit, within capacity |
| Fmt.WriteAllAppend | const_format/src/fmt/std_type_impls/ranges.rs:38-43 | writing `a` then `b` is writing `a + b`, stopping at the first failure |
| Fmt.UsizeDebugLen | const_format/src/wrapper_types/pwrapper.rs:190-194 | `const_debug_len` of a `usize` adds the length of its debug text for the accumulator's flags |
| Fmt.UsizeDebugFmt | const_format/src/fmt/std_type_impls/ranges.rs:39 | `const_debug_fmt` of a `usize` writes its debug text for the writer's flags, rendered by `to_start_array_*`, in one piece |
| Fmt.StrDisplayFmt | const_format/src/fmt/std_type_impls/ranges.rs:40 | `const_display_fmt` of a separator writes its bytes in one piece |
| Ranges.CoerceRange | const_format/src/fmt/std_type_impls/ranges.rs:16-24 | `coerce` copies both bounds unchanged, backwards ranges included |
| Ranges.CoerceRangeFrom | const_format/src/fmt/std_type_impls/ranges.rs:53-57 | `coerce` copies the start unchanged |
| Ranges.CoerceRangeTo | const_format/src/fmt/std_type_impls/ranges.rs:85-90 | `coerce` copies the end unchanged |
| Ranges.CoerceRangeToInclusive | const_format/src/fmt/std_type_impls/ranges.rs:117-125 | `coerce` copies the end unchanged |
| Ranges.CoerceRangeInclusive | const_format/src/fmt/std_type_impls/ranges.rs:152-157 | `coerce` rebuilds the range with both bounds unchanged |
| Ranges.RangeDebugLen | const_format/src/fmt/std_type_impls/ranges.rs:31-35 | adds `len(start) + 2 + len(end)` |
| Ranges.RangeDebugFmt | const_format/src/fmt/std_type_impls/ranges.rs:38-43 | writes start, `".."`, end in order, returning the first error without writing later parts |
| Ranges.RangeFromDebugLen | const_format/src/fmt/std_type_impls/ranges.rs:65-68 | adds `len(start) + 2` |
| Ranges.RangeFromDebugFmt | const_format/src/fmt/std_type_impls/ranges.rs:71-75 | writes start then `".."`, up to the first error |
| Ranges.RangeToDebugLen | const_format/src/fmt/std_type_impls/ranges.rs:97-100 | adds `2 + len(end)` |
| Ranges.RangeToDebugFmt | const_format/src/fmt/std_type_impls/ranges.rs:103-107 | writes `".."` then end, up to the first error |
| Ranges.RangeToInclusiveDebugLen | const_format/src/fmt/std_type_impls/ranges.rs:132-135 | adds `3 + len(end)` |
| Ranges.RangeToInclusiveDebugFmt | const_format/src/fmt/std_type_impls/ranges.rs:138-142 | writes `"..="` then end, up to the first error |
| Ranges.RangeInclusiveDebugLen | const_format/src/fmt/std_type_impls/ranges.rs:164-168 | adds `len(start) + 3 + len(end)` |
| Ranges.RangeInclusiveDebugFmt | const_format/src/fmt/std_type_impls/ranges.rs:171-176 | writes start, `"..="`, end in order, up to the first error |
| Ranges.RangeFullDebugLen | const_format/src/fmt/std_type_impls/ranges.rs:198-200 | adds exactly 2 |
| Ranges.RangeFullDebugFmt | const_format/src/fmt/std_type_impls/ranges.rs:203-205 | writes exactly `".."` |
| Ranges.WriteTwo | const_format/src/fmt/std_type_impls/ranges.rs:71-75 | two guarded writes are the first and then, if it succeeded, the second |
| Ranges.WriteThree | const_format/src/fmt/std_type_impls/ranges.rs:38-43 | three guarded writes happen one at a time up to the first failure |
| Ranges.RangeAgreement | const_format/src/fmt/std_type_impls/ranges.rs:31-43 | for `Range` and `RangeInclusive`, the write succeeds exactly when the counted length fits, and then appends exactly the counted bytes |
| Ranges.HalfRangeAgreement | const_format/src/fmt/std_type_impls/ranges.rs:65-75 | the same agreement for the two-piece ranges `RangeFrom`, `RangeTo`, `RangeToInclusive` |
| Ranges.FullRangeAgreement | const_format/src/fmt/std_type_impls/ranges.rs:198-205 | `RangeFull` writes its two bytes exactly when they fit |
| Ranges.RangeExample | const_format/tests/misc_tests/writec_macro.rs:91-100 | `55..89` renders as `55..89` with the default flags |
| FormatArgs.Misplaced | const_format_proc_macros/src/format_args/parsing.rs:112-118 | the first positional argument right after a named one, or the length when there is none |
| FormatArgs.WellOrderedIffNoneMisplaced | const_format_proc_macros/src/format_args/parsing.rs:103-118 | named arguments come last exactly when no positional argument follows a named one |
| FormatArgs.NamedPropagates | const_format_proc_macros/src/format_args/parsing.rs:103-118 | with no misplaced positional argument, every argument after a named one is named |
| FormatArgs.FirstNamed | const_format_proc_macros/src/format_args/parsing.rs:83 | `first_named_arg` is the index of the first named argument, or `args.len()` |
| FormatArgs.FirstNamedUnique | const_format_proc_macros/src/format_args/parsing.rs:101-110 | an index with only positional arguments before it and only named ones from it is `first_named_arg` |
| FormatArgs.NamedSuffix | const_format_proc_macros/src/format_args/parsing.rs:139-140 | in a well-ordered list the named arguments are exactly those from `first_named_arg` on, and `named_arg_names[k]` is the name of `args[first_named_arg + k]` |
| FormatArgs.NamesFrom | const_format_proc_macros/src/format_args/parsing.rs:107-110 | the collected names are those of the arguments from the first named one on, in order |
| FormatArgs.IndexText | const_format_proc_macros/src/format_args/parsing.rs:120 | an argument's index is written with its decimal digits |
| FormatArgs.Named | const_format_proc_macros/src/format_args/parsing.rs:123-126 | one local variable per input argument, in input order, each with its own expression |
| FormatArgs.NameArgs | const_format_proc_macros/src/format_args/parsing.rs:94-130 | the naming loop succeeds exactly when named arguments come last, fails with the error at the first misplaced positional argument, and otherwise yields `first_named_arg`, the names and the named arguments |
| FormatArgs.FirstMisplaced | const_format_proc_macros/src/format_args/parsing.rs:112-118 | the loop's error index is the first misplaced argument |
| FormatArgs.FirstNamedStep | const_format_proc_macros/src/format_args/parsing.rs:103-110 | one loop step keeps `first_named_arg` correct for the arguments seen so far |
| FormatArgs.NamingStep | const_format_proc_macros/src/format_args/parsing.rs:120-126 | one loop step adds the argument's local variable and, when named, its name |
| FormatArgs.ImplicitCount | const_format_proc_macros/src/format_args/parsing.rs:158-163 | at most one position per component is taken from the counter |
| FormatArgs.IndexOf | const_format_proc_macros/src/format_args/parsing.rs:149-152 | the first index of a name among the named arguments, found exactly when the name is there |
| FormatArgs.Target | const_format_proc_macros/src/format_args/parsing.rs:147-183 | a named placeholder takes the named argument of that name, or an in-scope constant of the same name exactly when there is none; a positional one takes its position when it is below `first_named_arg`, and is missing exactly otherwise |
| FormatArgs.Expansion | const_format_proc_macros/src/format_args/parsing.rs:185-194 | one expansion per component |
| FormatArgs.UnusedFlags | const_format_proc_macros/src/format_args/parsing.rs:132 | one unused flag per argument |
| FormatArgs.TargetOfPrefix | const_format_proc_macros/src/format_args/parsing.rs:158-163 | a placeholder's target depends only on the components before it |
| FormatArgs.UnusedFlagsStep | const_format_proc_macros/src/format_args/parsing.rs:147-169 | resolving a component clears the flag of the argument it refers to and nothing else |
| FormatArgs.GetVariableName | const_format_proc_macros/src/format_args/parsing.rs:147-183 | `get_variable_name` returns the target's local variable (the dummy for a missing position), advances the counter only for `{}`, clears the target's unused flag, and records the nonexistent-positional error exactly for a missing position |
| FormatArgs.ExpandComponent | const_format_proc_macros/src/format_args/parsing.rs:185-194 | one component's expansion, keeping counter, unused flags and errors in step with the reference definitions |
| FormatArgs.ResolveComponents | const_format_proc_macros/src/format_args/parsing.rs:145-195 | the resolution pass yields the reference expansion, unused flags and positional errors, continuing past errors |
| FormatArgs.UnusedReportedOnce | const_format_proc_macros/src/format_args/parsing.rs:197-208 | every argument never referenced is reported exactly once with its name, and nothing else is reported |
| FormatArgs.UnusedErrorsEmpty | const_format_proc_macros/src/format_args/parsing.rs:197-208 | no unused error exactly when every flag is cleared |
| FormatArgs.MissingErrorsEmpty | const_format_proc_macros/src/format_args/parsing.rs:165-180 | no positional error exactly when every positional placeholder has its argument |
| FormatArgs.ReportUnused | const_format_proc_macros/src/format_args/parsing.rs:197-208 | the unused-argument pass produces the reference errors |
| FormatArgs.Idents | const_format_proc_macros/src/format_args/parsing.rs:88-92 | one optional name per argument |
| FormatArgs.ParseWith | const_format_proc_macros/src/format_args/parsing.rs:78-215 | `parse_with` after token parsing equals the reference `Parse` |
| FormatArgs.AllReferencedIff | const_format_proc_macros/src/format_args/parsing.rs:132 | the flags left set are exactly those of arguments no placeholder referenced |
| FormatArgs.ParseSucceeds | const_format_proc_macros/src/format_args/parsing.rs:209-214 | parsing succeeds exactly when named arguments come last, every positional placeholder has its argument and every argument is referenced |
| FormatArgs.ParseOutput | const_format_proc_macros/src/format_args/parsing.rs:185-194 | a successful parse keeps one argument per input argument in order, and one expansion per component, literal text passing through with its rawness |
| FormatArgs.ImplicitPositions | const_format_proc_macros/src/format_args/parsing.rs:158-163 | consecutive `{}` take consecutive positions, whatever explicit placeholders lie between |
| FormatArgs.FirstImplicitIsZero | const_format_proc_macros/src/format_args/parsing.rs:158-163 | the first `{}` takes position 0 |
| FormatArgs.NoImplicit | const_format_proc_macros/src/format_args/parsing.rs:158-163 | explicit placeholders never move the counter |
| FormatArgs.ImplicitCountConcat | const_format_proc_macros/src/format_args/parsing.rs:158-163 | the counter's advance splits over a prefix and the rest |
| FormatArgs.NamedParametersTargets | const_format/tests/misc_tests/writec_macro.rs:86-100 | in `"{x},{y},{},{},{x:b},{y:x},{:?}"` with `21, 34, 55..89, x = 8, y = 13` the placeholders take arguments 3, 4, 0, 1, 3, 4, 2 |
| FormatArgs.ImplicitTargets | const_format/tests/misc_tests/writec_macro.rs:86-100 | the three `{}` there take positions 0, 1, 2 |
| FormatArgs.NamedArgsNames | const_format/tests/misc_tests/writec_macro.rs:86-94 | there `first_named_arg` is 3 and the names are `x`, `y` |
| FormatArgs.NamedParametersExample | const_format/tests/misc_tests/writec_macro.rs:86-100 | that call parses successfully |
| FormatArgs.RepeatedPositionalExample | const_format/tests/misc_tests/writec_macro.rs:39-44 | `"{0:},{0:?},{0:#x},{0:#b},{1},{1:?}"` with two arguments parses: repeating a position is allowed |
| CallDebugFmt.DebugFormatter.Do | const_format/src/macros/call_debug_fmt.rs:89-91 | a call that cannot fail is recorded |
| CallDebugFmt.DebugFormatter.Try | const_format/src/macros/call_debug_fmt.rs:136-141 | a fallible call is recorded and returns its outcome |
| CallDebugFmt.RunAppend | const_format/src/macros/call_debug_fmt.rs:90-94 | making two scripts in turn is making their concatenation, as far as the first error |
| CallDebugFmt.RunSucceeds | const_format/src/macros/call_debug_fmt.rs:136-141 | a script completes, making every call, exactly when all its fallible calls succeed |
| CallDebugFmt.RunFails | const_format/src/macros/call_debug_fmt.rs:136-141 | a failing script stops right after its first failing call and returns that call's error unchanged |
| CallDebugFmt.FallibleOkStep | const_format/src/macros/call_debug_fmt.rs:136-141 | the first `n + 1` calls succeed exactly when the first does and the next `n` succeed after it |
| CallDebugFmt.Entries | const_format/src/macros/call_debug_fmt.rs:90-93 | two calls per element |
| CallDebugFmt.EntriesShape | const_format/src/macros/call_debug_fmt.rs:90-93 | element `i` is formatted right after the `i`-th `entry()`, and the list is not finished among them |
| CallDebugFmt.EntriesConcat | const_format/src/macros/call_debug_fmt.rs:90-93 | the entries of a concatenation are the entries of each part |
| CallDebugFmt.ArrayDebugFmt | const_format/src/macros/call_debug_fmt.rs:84-96 | the `array` arm makes `debug_list()`, each element's entry and dispatch in index order, then `finish()`, returning at the first error |
| CallDebugFmt.SliceDebugFmt | const_format/src/macros/call_debug_fmt.rs:98-100 | the `slice` arm behaves as the `array` arm |
| CallDebugFmt.ArrayCompletes | const_format/src/macros/call_debug_fmt.rs:84-96 | when every call succeeds, the calls are `debug_list()`, `entry()` and element `i` for `i` from 0 to `len - 1`, then `finish()` |
| CallDebugFmt.ArrayStops | const_format/src/macros/call_debug_fmt.rs:90-94 | when the arm fails, either some element failed and nothing after it (no later element, no `finish()`) was called, or `finish()` failed after all elements |
| CallDebugFmt.ArrayFailsAt | const_format/src/macros/call_debug_fmt.rs:90-94 | the failing call of the `array` arm is an element's dispatch or the final `finish()` |
| CallDebugFmt.EntriesFallible | const_format/src/macros/call_debug_fmt.rs:90-93 | among the entries, only the elements' dispatches can fail |
| CallDebugFmt.TupleOutcome | const_format/src/macros/call_debug_fmt.rs:113-120 | a one-field debug tuple returns the field's error without finishing, and otherwise `finish()`'s result |
| CallDebugFmt.OptionDebugFmt | const_format/src/macros/call_debug_fmt.rs:101-111 | `None` writes exactly `"None"`; `Some(x)` formats `x` as the single field of a debug tuple named `"Some"` |
| CallDebugFmt.NewtypeDebugFmt | const_format/src/macros/call_debug_fmt.rs:113-120 | the type name is the tuple's name and only field `.0` is formatted |
| CallDebugFmt.StdDebugFmt | const_format/src/macros/call_debug_fmt.rs:122-126 | the coerced value's `const_debug_fmt` is called once and its error returned unchanged |
| CallDebugFmt.OtherDebugFmt | const_format/src/macros/call_debug_fmt.rs:127-131 | the value's own `const_debug_fmt` is called once and its error returned unchanged |
| CallDebugFmt.SingleCall | const_format/src/macros/call_debug_fmt.rs:136-141 | a single fallible call returns its outcome, error included, and is recorded either way |
| CallDebugFmt.ArrayExample | const_format/src/macros/call_debug_fmt.rs:67-70 | a two-element array with room for everything makes `debug_list()`, two entries and `finish()` |

## Left out

- Token parsing in `parsing.rs` (`ParseStream`, `parse_paren`, `parse_litstr`, identifiers and spans): the arguments are given as a list of (optional name, expression). `FormatStr::parse` is not part of this model; its component list is an input.
- Error messages and spans: each error is a constructor carrying the argument index or position. `LinearResult`'s accumulation is the concatenation of the error lists.
- The internals of `FormattingLength`, `Formatter`, `StrWriter` and the `debug_list`/`debug_tuple` builders are not part of this model.
  - `Fmt` models the first as a counter and the second as an append-only byte sequence with a capacity, failing when a piece does not fit.
  - `CallDebugFmt` sees the formatter only through the calls made on it, and a function decides each fallible call's outcome. The bytes the builders add (brackets, commas, field names) are not modelled.
- The `FOR_ESCAPING` table is not part of this model: it is a parameter of two masks. The example lemma assumes only the escapes of `\n`, `\t` and NUL.
- `GetTypeKind`, `TypeKindMarker` and `coerce_to_fmt!`: a compile-time type dispatch. `coerce` is the identity on values.
- `#[cfg(target_pointer_width)]`: the word is fixed at 64 bits, so `usize`/`isize` are `u64`/`i64`.
- The `with_fmt` `const_display_len` wrappers, beyond `add_len` of the computed length for `usize`. `PWrapper::slice`, a bare constructor, is also left out.
- Integer `const_debug_fmt` is not shown. `Fmt.UsizeDebugFmt` writes the `to_start_array_*` rendering of the flags' mode in one piece.
- `usize` overflow of the counted lengths: `FormattingLength` and `compute_utf8_debug_len` count in unbounded naturals.
- The `StartAndArray` byte array is a fixed-length sequence inside a value returned by the renderers. The Rust array is a value too, so nothing is aliased. The zero bytes before `start` are not stated.
- IntRender.AsNegative: states the `u128` bit pattern of the result, which is all the renderers use, not its `i128` value.
- The test oracle (`std::write!` into an `ArrayString`) and the test modules are not modelled. They serve only as sources of expected values.
