# Measurement string converter — verified model

This project models the conversion pipeline of a measurement API. The
pipeline turns a compact alphabetic encoding of measurements into package
sums in two stages:

- **Decoder** (`decoder.dfy`, module `Decoder`). A cursor scans the string
  and emits integers:
  - a letter of either case gives its 1-based alphabet position;
  - `_` gives 0;
  - a `z` that has a follower swallows that follower and gives 26 + the
    follower's letter value: 27..52 for a letter, 26 for `_` or anything else;
  - every other character is skipped. This includes `-`, even though the
    documentation calls it a separator.
- **Packager** (`packager.dfy`, module `Packager`). A cursor reads a count,
  sums the next `count` values and appends that sum. Values past the end
  count as 0. The cursor then jumps past the values it summed.
- **Converter** (`converter.dfy`, module `Converter`). Strips surrounding
  whitespace and composes the two stages.

Each `while` loop of `converter.py` is a `method` with a `while` loop. It
is proved equal to a recursive reference function: `Decode`, which decodes
the part of the string the cursor has not reached yet, and `PackagesFrom`,
which follows the packager's cursor. The composition is specified by
`Convert`. A cursor form of the decoder, `DecodeFrom`, is proved equal to
`Decode` and lets the verifier evaluate the long documented input one step
at a time.

Two results go beyond the examples in `converter.py`:

- An invalid character splits the input: `Decode(p + [c] + q) == Decode(p) + Decode(q)`
  holds for every `p` and `q`. This is because a `z` followed by an invalid
  character gives 26, the same value as a trailing lone `z`.
- It follows that stripping whitespace never changes the result.

The documentation in `converter.py` and the code disagree. The model
follows the code:

- The documented example decodes `"dz_a_aazzaaa"` to
  `[4, 26, 1, 0, 1, 1, 53, 1, 1]`. The code gives
  `[4, 26, 1, 0, 1, 1, 52, 1, 1, 1]`, because `zz` is 26 + 26 = 52 and three
  `a`s follow.
- So the whole pipeline gives `[28, 52, 1, 0]`, not the documented `[28, 53, 1]`.
  The packaging example taken on its own, `[4, 26, 1, 0, 1, 1, 53, 1, 1]` to
  `[28, 53, 1]`, is correct and is proved.

Two edge cases are worth spelling out:

- `[0, 5, 5]` packages to `[0, 5]`, not `[0, 10]`. The zero count gives an
  empty package. The next count, 5, then runs past the end, and only the
  final 5 is left to sum.
- The decoded stream can be shorter than the number of valid characters.
  `"zz"` holds two letters but decodes to the single value `[52]`.

## Model

| member | source | states |
|---|---|---|
| `Decoder.Decode` | converter.py:19-43 | every decoded value lies in 0..52 and the stream is never longer than the input |
| `Decoder.Lower` | converter.py:22-27 | an upper-case ASCII letter becomes the lower-case letter at the same alphabet position, every other character is unchanged, and the result is never upper case |
| `Decoder.ScanMatchesDecode` | converter.py:20-42 | the scan stated as a cursor moving by 2 over a `z` combination and by 1 otherwise, from cursor `i`, equals decoding the rest of the string from `i` on |
| `Decoder.CustomCharToNumber` | converter.py:7-43 | the cursor loop, which advances by 2 over a `z` combination and by 1 otherwise, yields exactly the reference stream `Decode(input)`; its invariant is that what it has emitted followed by the decoding of the unread rest is `Decode(input)` |
| `Decoder.LetterValue` | converter.py:37-38 | a letter of either case maps to its 1-based alphabet position, in 1..26 |
| `Decoder.ComboValue` | converter.py:26-36 | `z` plus a follower gives 26..52: 26 + the letter value for a letter, and 26 for `_` or any other character |
| `Decoder.DecodeSplitsAtInvalid` | converter.py:26-42 | for every prefix and suffix, an invalid character contributes nothing: what precedes it and what follows it decode independently, even when it is swallowed after a `z` |
| `Decoder.DecodeAppend` | converter.py:19-43 | concatenation decodes piecewise whenever the first part does not end on a pending lone `z` |
| `Decoder.DecodeDropsInvalid` | converter.py:40-42 | removing an invalid character that is not a `z` follower leaves the decoded stream unchanged |
| `Decoder.DecodeAllInvalid` | converter.py:40-42 | a string of only invalid characters decodes to the empty stream |
| `Decoder.DecodeCaseInsensitive` | converter.py:22-27 | lower-casing the whole input first does not change the decoded stream |
| `Decoder.DecodePlainLetters` | converter.py:37-38 | letters with no `z` combination decode one value per character, each the letter's position |
| `Decoder.DecodeEncode` | converter.py:19-43 | every stream of values in 0..52 is the decoding of some string (round trip through a reference encoder) |
| `Decoder.DecodeExamples` | converter.py:23-42 | `""`→`[]`, `"_"`→`[0]`, `"-"`→`[]`, `"z"`→`[26]`, `"zz"`→`[52]`, `"zzz"`→`[52,26]`, `"z1"`→`[26]`, `"z1a"`→`[26,1]` against `"za"`→`[27]`, `"Ab"`→`[1,2]` |
| `Decoder.DecodeDocExample` | converter.py:16-17 | `"dz_a_aazzaaa"` decodes to `[4,26,1,0,1,1,52,1,1,1]` and not to the documented stream |
| `Packager.SumZeros` | converter.py:66-68 | the zero padding sums to 0 |
| `Packager.Window` | converter.py:66-70 | the members of the package whose count is at `i` are the `count` values after it, or all remaining values when the count runs past the end |
| `Packager.WindowMembers` | converter.py:66-70 | the `k`-th member of a package is the `k`-th value after its count |
| `Packager.PaddedTailSum` | converter.py:66-71 | the tail the loop builds, zero-padded when the count runs past the end or sliced otherwise, has the same sum as the package window: the padding adds nothing |
| `Packager.PackagesFrom` | converter.py:61-74 | never more packages than values remain after the cursor, so never more sums than input values |
| `Packager.Packages` | converter.py:45-74 | the package sums of a whole stream, never more of them than values |
| `Packager.ParsePackages` | converter.py:45-74 | the loop, with its zero-padded tail and `i += count` jump, yields exactly the reference package sums, whose members are the values after each count, cut off at the end |
| `Packager.NonNegativeCountsOk` | converter.py:63-73 | a stream of non-negative values, such as any decoded stream, makes the cursor move forward at every step, so the loop terminates |
| `Packager.OnePackagePerCount` | converter.py:63-73 | exactly one package sum per count marker read |
| `Packager.PackagesConserveSum` | converter.py:64-73 | the package sums plus the counts add up to the sum of the whole stream: no value is lost or counted twice, and padding adds nothing |
| `Packager.PackagesBounded` | converter.py:64-72 | if every value lies in 0..m, every package sum lies in 0..m*m |
| `Packager.PackagesDocExample` | converter.py:52-59 | the documented grouping `[4,26,1,0,1,1,53,1,1]`→`[28,53,1]` |
| `Packager.PackagesEdgeExamples` | converter.py:61-74 | `[]`→`[]`, `[3,1,1]`→`[2]` (padding), and `[0,5,5]`→`[0,5]`, not `[0,10]` |
| `Packager.PackagesDocStream` | converter.py:63-73 | the stream actually decoded from the documented input packages to `[28,52,1,0]`, and its last count runs past the end |
| `Converter.SpaceCharacters` | converter.py:92 | the whitespace `strip()` removes is exactly tab, line feed, vertical tab, form feed, carriage return, 0x1C..0x1F and space, and none of it is a letter or `_` |
| `Converter.TrimStart` | converter.py:92 | the result is a suffix of the input, everything removed is whitespace, and the result does not start with whitespace |
| `Converter.TrimEnd` | converter.py:92 | the result is a prefix of the input, everything removed is whitespace, and the result does not end with whitespace |
| `Converter.Strip` | converter.py:92 | the result is a contiguous part of the input such that everything before and after it is whitespace, and neither of its ends is whitespace |
| `Converter.StripUnique` | converter.py:92 | any part of the input surrounded only by whitespace and neither starting nor ending with whitespace is the stripped string, so `Strip` is fully determined |
| `Converter.StripDocInput` | converter.py:85-87 | the documented input has no surrounding whitespace, so stripping leaves it unchanged |
| `Converter.DecodeIgnoresLeadingSpace` | converter.py:92-93 | leading whitespace does not change the decoded stream |
| `Converter.DecodeIgnoresTrailingSpace` | converter.py:92-93 | trailing whitespace does not change the decoded stream |
| `Converter.StripKeepsDecode` | converter.py:92-93 | stripping never changes the decoded stream |
| `Converter.Convert` | converter.py:76-95 | the composed result has no more sums than the input has characters, and each sum lies in 0..52*52 |
| `Converter.ConvertIgnoresStrip` | converter.py:92-95 | the conversion equals packaging the decoded unstripped input |
| `Converter.ConvertMeasurementString` | converter.py:76-95 | strip, then decode, then package yields `Convert(input)`, which has at most one sum per input character |
| `Converter.ConvertDocExample` | converter.py:85-87 | `"dz_a_aazzaaa"` converts to `[28,52,1,0]`, not to the documented `[28,53,1]` |

## Left out

- Logging: the warning for each skipped character (converter.py:41) is not modelled. The character is just skipped.
- The unused `mode` parameter of `convert_measurement_string` and the unused `HTTPException` import.
- Non-ASCII case folding and whitespace. `Lower` folds only `A`..`Z`, and `IsSpace` covers only ASCII whitespace (tab to carriage return, 0x1C..0x1F, space). Python's Unicode `lower()` maps a few non-ASCII characters into `a`..`z`: the Kelvin sign becomes `k`, and `İ` becomes two characters, so `ord` would fail on it. `strip()` also removes Unicode spaces.
- Packager.ParsePackages: requires every count the cursor reads to be non-negative (`CountsOk`). With a negative count the cursor of `parse_packages` can move backwards and loop forever, and Python's negative slice indices come into play. The decoder produces only values in 0..52, so the composed conversion never hits this case.
- The HTTP endpoints, the history file, RSA encryption and decryption, key generation and the database table (main.py, decrypt_history.py, generate_keys.py, database.py, models.py). These are network, persistence and cryptography glue around the pipeline.
- The encoder `Decoder.Encode` is not part of `converter.py`. It is a reference inverse for the round-trip lemma.
