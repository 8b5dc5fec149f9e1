# unhexify, modelled in Dafny

`unhexify` is a command-line tool that turns a string of hexadecimal digits
(`--data`) into raw bytes and writes them to a file (`--output-file`). Its
core is the decoder in `Unhexify.run()`:

1. **Scan.** It walks the string left to right. Hex digits are appended to
   `inputData`, whitespace is skipped, and `position` counts every character
   consumed. The first character that is neither stops the run with
   "Invalid character in hex string at position N".
2. **Parity.** An odd number of kept digits stops the run with "Malformed hex
   string".
3. **Decode.** The digits are cut into pairs with the generic
   `Array.chunked(into:)` helper. Each pair is parsed with
   `UInt8(_, radix: 16)!`, high nibble first.

Two modules model this:

- `chunked.dfy`, module `Chunking`: `Chunked` is `chunked(into:)`, with the
  lemmas that the chunks concatenate back to the input and that chunk `i` is
  the stride slice `a[i*size ..< min(i*size+size, count)]`.
- `unhexify.dfy`, module `Unhexify`:
  - `Decode` is the specification of the decoder. It is built from
    `FirstInvalid`, where the scan stops, and `HexDigits`, what the scan keeps.
  - `Run` is the scan loop as the source writes it, with `inputData`,
    `position` and the early exit. It is proved to return `Decode(data)`.
  - The lemmas state the decoder's promises about `Decode`: the three
    outcomes, the layout of the bytes, insensitivity to whitespace and to
    letter case, a round trip with a hex encoder, and the known vectors.

The two failures are the variants `InvalidCharacter(position)` and
`Malformed` of `DecodeResult`. The source prints them and exits instead.

## Model

| member | source | states |
|---|---|---|
| `Chunking.Chunked` | Sources/Unhexify.swift:9-12 | every chunk is non-empty and at most `size` long; every chunk but the last is exactly `size` long; there are no chunks exactly when the input is empty |
| `Chunking.ChunkedFlatten` | Sources/Unhexify.swift:9-12 | concatenating the chunks in order gives back the original sequence |
| `Chunking.ChunkedCount` | Sources/Unhexify.swift:10 | there is one chunk per stride point: the last one starts below `count` and `n` strides cover `count`, so `n` is `count / size` rounded up |
| `Chunking.StrideIsProduct` | Sources/Unhexify.swift:10 | the `i`-th stride point is `i * size` |
| `Chunking.ChunkedAt` | Sources/Unhexify.swift:10-11 | chunk `i` starts at the `i`-th stride point, which is below `count`, and is the slice `[i*size ..< min(i*size + size, count)]` |
| `Chunking.ChunkedPairs` | Sources/Unhexify.swift:51 | on an even-length sequence, chunks of 2 are exactly the `count/2` pairs `[a[2i], a[2i+1]]` |
| `Unhexify.DigitValue` | Sources/Unhexify.swift:52 | the base-16 value of one hex digit is below 16 |
| `Unhexify.ParseUInt8Inverse` | Sources/Unhexify.swift:52 | `UInt8(_, radix: 16)` parses the two lower-case hex digits of any byte, high nibble first, back to that byte |
| `Unhexify.ParsePair` | Sources/Unhexify.swift:52 | two hex digits always parse, to 16 times the first digit plus the second |
| `Unhexify.PairsToBytes` | Sources/Unhexify.swift:52 | the force-unwrapped `map` needs every pair to parse; it gives one byte per pair, in order, and a two-character pair is two hex digits whose byte is 16 times the first digit plus the second |
| `Unhexify.PairsParse` | Sources/Unhexify.swift:51-52 | every pair cut from an even run of ASCII hex digits parses, so the force unwrap never traps |
| `Unhexify.FirstInvalid` | Sources/Unhexify.swift:27-37 | where the scan stops lies inside the input |
| `Unhexify.FirstInvalidSpec` | Sources/Unhexify.swift:27-37 | the scan stops at a character that is neither a hex digit nor whitespace, and every earlier character is one of the two; with no stop, every character is one of the two |
| `Unhexify.HexDigits` | Sources/Unhexify.swift:28-33 | the kept characters are all hex digits and are no more than the input |
| `Unhexify.HexDigitsAppend` | Sources/Unhexify.swift:28-33 | one scan step appends a hex digit and leaves the kept digits alone for anything else |
| `Unhexify.HexDigitsConcat` | Sources/Unhexify.swift:27-33 | the kept digits of a concatenation are the concatenation of the kept digits, order preserved |
| `Unhexify.HexDigitsAllHex` | Sources/Unhexify.swift:28-30 | a string of hex digits only is kept whole |
| `Unhexify.HexDigitsWhitespace` | Sources/Unhexify.swift:31-33 | whitespace contributes no digits |
| `Unhexify.FirstInvalidWhitespace` | Sources/Unhexify.swift:31-33 | whitespace never stops the scan |
| `Unhexify.FirstInvalidConcat` | Sources/Unhexify.swift:27-37 | the scan of `a + x` stops inside `a` if it stops there, and otherwise where it stops in `x`, shifted by `|a|` |
| `Unhexify.Decode` | Sources/Unhexify.swift:24-52 | on success there are exactly half as many bytes as kept hex digits |
| `Unhexify.Run` | Sources/Unhexify.swift:24-52 | the loop keeps `position` equal to the number of characters consumed and `inputData` equal to the hex digits of that prefix, and the method returns exactly `Decode(data)`: the first bad position, `Malformed`, or the decoded bytes |
| `Unhexify.ScanStep` | Sources/Unhexify.swift:27-37 | one loop iteration: a hex digit is appended to the kept digits; a hex digit or whitespace lets a clean scan go on; any other character after a clean prefix is exactly what `Decode` reports, at its index |
| `Unhexify.DecodeInvalidCharacter` | Sources/Unhexify.swift:26-37 | the result is `InvalidCharacter(p)` if and only if `p` is the index of the first character that is neither a hex digit nor whitespace, whatever the digit count |
| `Unhexify.DecodeMalformed` | Sources/Unhexify.swift:42-47 | the result is `Malformed` if and only if every character is a hex digit or whitespace and the number of hex digits is odd |
| `Unhexify.DecodeOk` | Sources/Unhexify.swift:42-52 | the result is `Ok` if and only if every character is a hex digit or whitespace and the digit count is even; then there are half as many bytes as digits, and byte `i` is `16*val(d[2i]) + val(d[2i+1])` over the kept digits `d` |
| `Unhexify.DecodeDependsOnScan` | Sources/Unhexify.swift:42-52 | two inputs with the same scan stop and the same kept digits decode alike |
| `Unhexify.ScanSkipsWhitespace` | Sources/Unhexify.swift:27-37 | inserting whitespace moves a later stop by the inserted length and changes nothing else about the stop |
| `Unhexify.DigitsSkipWhitespace` | Sources/Unhexify.swift:28-33 | inserting whitespace does not change the kept digits |
| `Unhexify.WhitespaceInsensitive` | Sources/Unhexify.swift:27-52 | inserting whitespace anywhere leaves the result unchanged, except that the position of a bad character after the insertion moves by its length |
| `Unhexify.LowerAsciiClass` | Sources/Unhexify.swift:28-33 | lower-casing a character keeps its class, and keeps the value of a hex digit |
| `Unhexify.FirstInvalidLower` | Sources/Unhexify.swift:27-37 | lower-casing the input does not move the scan stop |
| `Unhexify.HexDigitsLower` | Sources/Unhexify.swift:28-30 | the kept digits of the lower-cased input are the lower-cased kept digits |
| `Unhexify.CaseInsensitive` | Sources/Unhexify.swift:28-52 | lower-casing the input gives the same result, including the same bad position |
| `Unhexify.RoundTrip` | Sources/Unhexify.swift:27-52 | decoding the two-digits-per-byte hex encoding of any byte sequence gives that sequence back |
| `Unhexify.ExampleInvalidCharacter` | Sources/Unhexify.swift:26-37 | `"ab#cd"` and `" a#"` both fail at position 2, because whitespace counts toward the position |
| `Unhexify.ExampleInvalidBeforeParity` | Sources/Unhexify.swift:27-47 | `"abc#"` fails with `InvalidCharacter(3)`, not `Malformed`, although it holds three digits |
| `Unhexify.ExampleMalformed` | Sources/Unhexify.swift:42-47 | `"abc"` is `Malformed` |
| `Unhexify.ExampleEmpty` | Sources/Unhexify.swift:24-52 | the empty string decodes to no bytes |
| `Unhexify.ExampleHello` | Sources/Unhexify.swift:27-52 | `"48656c6c6f"` decodes to `0x48 0x65 0x6c 0x6c 0x6f` |
| `Unhexify.ExampleWhitespace` | Sources/Unhexify.swift:31-33 | `"ab cd"` decodes as `"abcd"` |
| `Unhexify.ExampleCombiningMark` | Sources/Unhexify.swift:27-37 | the model scans Unicode scalars: in `" \u{0301}ab"` the combining mark after the space is a character of its own, neither hex digit nor whitespace, so the result is `InvalidCharacter(1)` |
| `Unhexify.ExampleCase` | Sources/Unhexify.swift:28-52 | `"AaBbCcDd"` decodes as `"aabbccdd"` |
| `Unhexify.SwiftHexDigits` | Sources/Unhexify.swift:28-30 | the scan as written, with Swift's `isHexDigit`, keeps only characters that test accepts and no more than the input |
| `Unhexify.FullwidthDigitsTrap` | Sources/Unhexify.swift:28-52 | under Swift's `isHexDigit`, the scan keeps two fullwidth digits whole, their count is even, and the single pair cut from them does not parse, so the unwrap traps; the model's `Decode` rejects the first one at position 0 |

## Left out

- Option parsing with `ArgumentParser` (lines 16-22). It is a library with no logic of its own. `data` is the parameter of `Run` and `Decode`.
- Writing the bytes with `Data` and `URL.write`, and the `catch` that prints the error (lines 54-61). This is file-system I/O, so the model stops at the byte sequence that would be written.
- `print` and `throw ExitCode.failure` (lines 35-36 and 45-46). They appear as the `InvalidCharacter` and `Malformed` results.
- Characters are Unicode scalars, not Swift's grapheme clusters. Swift counts `"\r\n"`, or a letter followed by a combining mark, as one `Character`. There the model counts two positions, and a hex digit followed by a combining mark is a different character in Swift. The outcome can differ too, not only the position: whitespace followed by a combining mark, as in `" \u{0301}ab"`, is one `Character` that Swift skips, so the source decodes that input to `0xab`, while the model's `Decode` reports `InvalidCharacter(1)` for the combining mark (`ExampleCombiningMark`).
- `IsHexDigit` is ASCII `0-9a-fA-F`. Swift's `isHexDigit` also accepts the fullwidth forms; see Findings.
- `IsWhitespace` is the fixed list of Unicode White_Space scalars. Swift's `isWhitespace` tests the first scalar of the `Character`, so a `Character` made of whitespace and a combining mark counts as whitespace there (see the line above).
- `ParseUInt8` does not model the leading `+` or `-` sign that `UInt8(_, radix:)` accepts. Only pairs of hex digits ever reach it.
- `Chunked` requires `size > 0`. In Swift, `stride` traps on a zero step, and a negative step returns no chunks at all. The source only calls it with 2.
- `position` is an unbounded integer; Swift's 64-bit `Int` cannot overflow on any string that fits in memory.

## Findings

| source | as written | input that shows it | evidently intended | confidence | as-written member | corrected member |
|---|---|---|---|---|---|---|
| Sources/Unhexify.swift:28 | the scan keeps every character for which `Character.isHexDigit` holds, and that includes the fullwidth digits U+FF10-FF19, U+FF21-FF26 and U+FF41-FF46; `UInt8(_, radix: 16)` at line 52 rejects them, so the force unwrap traps | `"１１"` (U+FF11 twice) | report `InvalidCharacter` at position 0, as for any other non-hex character | not executed; rests on Swift's documented `isHexDigit` | `Unhexify.FullwidthDigitsTrap` | `Unhexify.PairsParse` |
