# GenPassX password generator (first version) in Dafny

This project models the logic of `main.c`, the first GTK version of GenPassX.
That logic is:

- the password generator `generate_password`. It fills a caller-owned `char`
  buffer with `length` characters taken from a fixed 62-character alphanumeric
  charset. Successive `rand()` draws choose the characters. A NUL terminator
  follows them.
- the length handling in the button callback `on_generate_clicked`. A parsed
  length of 0 or less becomes 12. Any positive length is kept, with no upper
  bound. The buffer is allocated with `length + 1` cells.

Modules:

- `Charset` (`charset.dfy`): the charset literal, laid out as a-z, A-Z, 0-9.
  It also holds its C layout with the trailing NUL (`sizeof(charset) == 63`,
  so the modulus is 62) and the facts that make the charset exactly the ASCII
  letters and digits, each occurring once.
- `Rand` (`rand.dfy`): `rand()` as a class `RandSource` whose `pending` field
  is the stream of non-negative draws still to come. Each `Next()` call returns
  one draw and consumes it, as the process-wide C generator does.
- `CStrings` (`cstring.dfy`): NUL-terminated strings, which is how GTK reads
  the buffer.
- `Generator` (`generator.dfy`): C's truncating `%` (`Key`) and the
  specification function `Password(draws)`. It also holds the in-place method
  `GeneratePassword` over an `array<char>`, proved against `Password`.
- `Callback` (`callback.dfy`): the length rule, the allocation size (32-bit
  arithmetic as written, the `size_t` request `malloc` then receives, and the
  corrected size) and the non-UI part of the click handler. The handler
  allocates the corrected size, so at INT_MAX it models the intended program;
  the overflow as written is stated separately (see "## Findings").

The generated password is determined by the draws. Position `i` holds
`charset[r_i % 62]`. Two draw streams give the same password exactly when
their residues modulo 62 agree (`PasswordEqualIff`). The residues can be read
back from the password (`PositionsOfPassword`).

## Model

| member | source | states |
|---|---|---|
| Charset.ClassRuns | main.c:7 | each of the three classes in the literal is a run of consecutive code points: a-z, A-Z, 0-9 |
| Charset.AlphabetLayout | main.c:7 | the charset has 62 characters: a-z at positions 0-25, A-Z at 26-51, 0-9 at 52-61 |
| Charset.AlphabetIsLiteral | main.c:7 | the modelled alphabet is exactly the `charset` string literal |
| Charset.ModulusIsAlphabetSize | main.c:7-9 | `sizeof(charset) - 1` is 62, the number of real characters; the cell at index 62 is the literal's NUL |
| Charset.IndexOf | main.c:7 | every letter or digit has a position in the charset, and the charset holds that character at that position |
| Charset.AlphabetIsExactlyAlphanumeric | main.c:7 | a character is in the charset if and only if it is an ASCII letter or digit (no symbol, no whitespace, no NUL) |
| Charset.AlphabetDistinct | main.c:7 | no character occurs twice in the charset |
| Charset.IndexOfAlphabet | main.c:7 | looking up the character at position k and taking its position gives back k |
| Rand.RandSource.constructor | main.c:33 | the generator starts with a given stream of non-negative draws |
| Rand.RandSource.Next | main.c:9 | one `rand()` call returns the first pending draw and removes it from the stream |
| CStrings.CStringOf | main.c:12 | the text a C reader sees is the characters before the first NUL; there is none when the buffer has no NUL |
| CStrings.CStringOfTerminated | main.c:12 | text without a NUL, followed by a NUL, reads back as exactly that text, whatever follows |
| Generator.Key | main.c:9 | for a non-negative draw the index is `r % 62`, inside `[0, 62)`, so the read stays in the charset and never selects its NUL; a negative draw gives a non-positive index |
| Generator.NegativeDrawLeavesCharset | main.c:9 | a draw of -1 would give index -1, outside the charset, so the bounds depend on `rand()` being non-negative |
| Generator.CharFor | main.c:9-10 | the character chosen for a draw is a letter or digit, not NUL, and is the charset character at `r % 62` |
| Generator.Password | main.c:8-11 | the password has one character per draw, and every character is a letter or digit |
| Generator.PasswordAt | main.c:8-10 | character i of the password is `charset[r_i % 62]` for the i-th draw `r_i` |
| Generator.PasswordSnoc | main.c:8-10 | one more loop step (one more draw) appends exactly one character and leaves earlier positions alone |
| Generator.Keys | main.c:9 | the charset positions that the draws select are all below 62 |
| Generator.Positions | main.c:10 | every character of an alphanumeric text maps back to a charset position that holds it |
| Generator.PositionsOfPassword | main.c:8-10 | reading positions back from a generated password gives exactly each draw's residue modulo 62 |
| Generator.PasswordEqualIff | main.c:8-10 | two draw streams give the same password if and only if their residues modulo 62 agree position by position |
| Generator.PasswordIsCString | main.c:10-12 | a generated password contains no NUL, so with its terminator it reads back as a C string of exactly `length` characters |
| Generator.GeneratePassword | main.c:6-13 | cells 0..length-1 become `Password` of the next `length` draws, cell `length` becomes NUL, later cells are unchanged, exactly `length` draws are consumed, and the buffer reads back as the password |
| Callback.EffectiveLength | main.c:22-23 | a parsed length of 0 or less becomes 12, a positive length is kept unchanged whatever its size (no upper clamp), and the result is always at least 1 |
| Callback.Wrap32 | main.c:25 | two's-complement wrapping lands in the `int` range, is congruent to its input modulo 2^32, and leaves in-range values alone |
| Callback.AllocCellsAsWritten | main.c:25 | `length + 1` in `int` arithmetic is `length + 1` for every length below INT_MAX |
| Callback.AllocCells | main.c:25 | the corrected allocation has more cells than the password has characters |
| Callback.MallocRequestAsWritten | main.c:25 | the byte count `malloc` receives is the `int` sum converted to a 64-bit `size_t`: in range and congruent to the sum modulo 2^64 |
| Callback.AllocOverflowsAtIntMax | main.c:22-25 | the parsed length 2147483647 passes the rule, `length + 1` as written wraps to INT_MIN, and `malloc` is asked for `(size_t)INT_MIN` = 2^64 - 2^31 bytes instead of 2^31 |
| Callback.AllocAsWrittenAgreesIff | main.c:22-25 | the allocation as written equals the corrected one if and only if the length is below INT_MAX |
| Callback.AllocFitsPassword | main.c:23-26 | with the corrected size, every write of generate_password, terminator included, is inside the buffer, and the password is never empty |
| Callback.OnGenerateClicked | main.c:22-28 | for a parsed C `int`, with the corrected allocation `AllocCells`, the entry shows a password of exactly `EffectiveLength(parsed)` (at least 1) characters, equal to `Password` of the next draws, and those draws are consumed |

## Left out

- GTK: the window, box, entry and button construction, signal wiring, `gtk_main` and `gtk_entry_get_text` are user-interface plumbing and are not modelled. `gtk_entry_set_text` is modelled only as reading the buffer as a C string (`CStringOf`).
- `srand(time(NULL))` and the internal algorithm of `rand()` are not modelled. The clock and the C library's generator are replaced by the supplied stream of draws in `RandSource`.
- Callback.OnGenerateClicked: allocates the corrected `AllocCells`, so for the parsed length INT_MAX it models the intended program, not the overflowing `length + 1` of the source; the behaviour as written is `AllocOverflowsAtIntMax`.
- Rand.RandSource.Next: the real `rand()` never runs out. The model's stream is finite, so `GeneratePassword` and `OnGenerateClicked` require at least `length` pending draws.
- `atoi` parsing of the entry text is not modelled. Its result is the integer `parsed` given to the length rule.
- `malloc` failure and `free` are not modelled. The model allocates with `new`, which cannot fail. The source does not check `malloc`'s result for NULL.
- `g_free(widgets)` on a stack array is a memory-management error outside the password logic and is not modelled.
- Uniformity and the modulo bias of `rand() % 62` are probabilistic claims and are not stated.
- Character-class flags, ambiguous-glyph exclusion, the 128-character upper bound, strength scoring, hashing and saving to a file belong to later versions of the program, not to `main.c`. This file has no upper bound on the length: a positive length is always kept, and the model follows that code.

## Findings

| source | as written | input that shows it | evidently intended | confidence | as-written member | corrected member |
|---|---|---|---|---|---|---|
| main.c:25 | `malloc((length + 1) * sizeof(char))` computes `length + 1` in `int`, and the length rule at main.c:23 passes every positive value | length entry `2147483647`: `atoi` gives INT_MAX, and `length + 1` overflows (undefined behaviour; it wraps to INT_MIN on two's-complement compilers). Converted to `size_t`, `malloc` is asked for 2^64 - 2^31 bytes, refuses with NULL, and `generate_password` writes through the unchecked NULL | allocate `length + 1` cells without overflow (for example `(size_t)length + 1`), so that every write, terminator included, is in bounds | not executed; the overflow is certain, and what a given compiler emits for it may vary | Callback.AllocOverflowsAtIntMax | Callback.AllocFitsPassword |
