# 128-bit memory image converters, modelled in Dafny

The tools move one memory image between four forms:

- a raw byte buffer;
- a HEX file: one 32-character hexadecimal word (128 bits) per line;
- a COE file: the vendor memory-initialisation text, with a radix line, a vector line, then one word per line ending in `,`, the last in `;`;
- a binary PGM (P5) image.

The model keeps each script's own steps. Each script whose code loops or changes state step by step is a Dafny `method` with its loop. That method is proved equal to a specification function. The properties the tools promise are lemmas about those functions.

Files are inputs given as their lines, in the form Python's file iteration yields them: each line keeps its `\n`. `Text.SplitLines` is that reading, with the universal newlines of a text-mode file: `\r\n` and a lone `\r` both end a line and are read as `\n`. Writing a file is returning its text (`Text.JoinLines`) or its bytes.

Modules:

- `Text`: the Python string builtins the scripts rely on.
  - `strip`/`rstrip`: on `str` over every character `str.isspace()` accepts (`WHITESPACE`), on `bytes` over the six ASCII whitespace characters (`ASCII_WHITESPACE`);
  - `startswith`, `replace(' ', '')`, ASCII `lower()`;
  - `int()` on decimal bytes, `split()` on bytes;
  - splitting a file into lines and joining lines back.
- `WordCodec`: hex digits and the three validation levels. `IsWord` is exactly 32 hex characters, `IsEvenHex` is any even length, `IsHexNumeral` is non-empty hex of any length. `bytes.hex()` is `EncodeHex` and `bytes.fromhex` is `DecodeHex`.
- `Packer`: `bytes_to_words_hex` as `Pack` and its loop, decoding and joining words (`Unpack`), and fitting a buffer to `width*height` (`Resize`).
- `CoeFormat`: the COE layout `write_coe` produces, and its loop.
- `HexLines`: `load_hex` (the stripped form of every non-blank line, which every HEX reader uses), `write_hex`, and the first word that is not 32 hex characters.
- `PgmFormat`: the P5 header writer and `read_pgm` with its comment-skipping loop.
- `CoeReader`: the line scan both COE parsers share. The scan has an `in_vec` flag and an error that aborts it. Each parser supplies its own per-line word function.
- `CoeToHex`, `CoeToImage`, `HexToCoe`, `HexToImage`, `SanitizeHex`, `ReverseHex`, `CompareHex`: one module per script.
- `CoeParsers`: where the two COE parsers agree and where they differ.

Behaviours of the scripts that the model keeps, and that are easy to miss:

- The two COE parsers clean a word line differently.
  - `coe_to_image` removes one trailing `;` and then every trailing `,`. A hex word followed by `;;` keeps one `;`. After an even-length word that line fails the length check; after an odd-length word it has an even length and fails the hex check instead (`CoeParsers.DoubledSemicolon`).
  - `coe_to_hex` removes every trailing `,` and `;`, in any mix.
- Both parsers open the vector at the first line that starts with `memory_initialization_vector`. The `=` is not needed.
- Every script accepts any `int` as width and height. `width*height` may then be negative. The writers then follow Python's slicing rules (`Packer.PyPrefix`). The PGM reader's `f.read(width*height)` does not slice: it reads everything for `-1` and raises `ValueError` for anything below `-1` (`PgmFormat.PyRead`, error `BadReadLength`).
- `coe_to_hex` accepts a hex word of any non-empty length, odd ones included (`CoeParsers.OddWord`).

## Model

| member | source | states |
|---|---|---|
| Text.Strip | tools/compare_hex.py:7 | the result has no `str.isspace()` character at either end and is no longer than the input |
| Text.StripOfRemoves | tools/coe_to_hex.py:18 | what stripping removes is all in the stripped set, and what is left is one contiguous slice of the input |
| Text.BytesStrip | tools/image_to_coe.py:17 | the result has no ASCII whitespace at either end and is no longer than the input |
| Text.StripPadded | tools/compare_hex.py:7 | stripping whitespace from around an already stripped string gives that string |
| Text.ParseInt | tools/image_to_coe.py:27-28 | `int()` succeeds exactly when the stripped field is an optional sign and at least one decimal digit; a negative result needs a `-` |
| Text.ParseDecimal | tools/image_to_coe.py:28 | `int(f"{n}") == n` for every int |
| Text.SplitWs | tools/image_to_coe.py:27 | every field is non-empty and holds no whitespace; there are no fields exactly when the input is all whitespace |
| Text.SplitToken | tools/image_to_coe.py:27 | a field, then whitespace, then text that is empty or starts with a non-whitespace character, splits into that field and the fields of the rest |
| Text.SplitTwo | tools/image_to_coe.py:27 | two fields joined by one space split back into those two fields |
| Text.Universal | tools/compare_hex.py:6 | no `\r` is left after universal-newline translation |
| Text.SplitLines | tools/compare_hex.py:6-7 | every line read is non-empty and holds no `\r` |
| Text.LineEnds | tools/coe_to_hex.py:8 | `\n`, `\r\n` and a lone `\r` each end a line, which is read with `\n` in their place |
| Text.SplitJoin | tools/coe_to_hex.py:32-35 | reading back written lines that hold no `\n` or `\r` gives each line followed by its `\n` |
| Packer.BytesToWordsHex | tools/png_to_input_assets.py:52-59 | the loop returns `Pack(data)`: ceil(n/16) words, each 32 lowercase hex characters |
| Packer.NextChunk | tools/image_to_coe.py:38-40 | the chunk at `i` is the next at most 16 bytes, right-padded with zero bytes to 16 |
| Packer.Pack | tools/png_to_input_assets.py:54 | one word per started 16-byte chunk: `(len(data) + 15) / 16` words, none for empty data |
| Packer.PackWords | tools/png_to_input_assets.py:56-58 | every packed word has exactly 32 characters, all lowercase hex digits |
| Packer.PaddedChunk | tools/png_to_input_assets.py:56-57 | a padded chunk has 16 bytes: the chunk first, then zeros |
| Packer.PackStep | tools/image_to_coe.py:37-41 | the packing of the bytes from `i` on is the word of the chunk at `i` followed by the packing of the bytes after that chunk |
| Packer.UnpackPack | tools/png_to_input_assets.py:54-58 | decoding and joining the packed words gives the data right-padded with zeros to the next multiple of 16 |
| Packer.UnpackPackAligned | tools/png_to_input_assets.py:55-57 | when the length is a multiple of 16 the round trip gives the data back exactly |
| Packer.UnpackAppend | tools/hex_to_image.py:12 | extending the buffer by one word's bytes is decoding the list with that word appended |
| Packer.UnpackLength | tools/hex_to_image.py:12 | 32-character words decode to 16 bytes each |
| Packer.PyPrefix | tools/coe_to_image.py:57 | `s[:k]` is a prefix of `s`, of length `min(k, len(s))` for non-negative `k` |
| Packer.Resize | tools/coe_to_image.py:56-59 | for a non-negative product the fitted buffer has exactly width*height bytes; the first min(len, w*h) are the input's and the rest are zero; an exact fit is unchanged; a negative product gives Python's `pixels[:expected]` |
| Packer.ResizePadded | tools/hex_to_image.py:14-18 | zero padding added before a non-negative resize is invisible after it |
| WordCodec.EncodeHex | tools/png_to_input_assets.py:58 | `hex()` gives two lowercase hex digits per byte |
| WordCodec.DecodeHex | tools/coe_to_image.py:47 | `fromhex` gives one byte per two digits |
| WordCodec.DecodeHexAt | tools/coe_to_image.py:47 | byte k comes from digits 2k and 2k+1, the first being the high nibble (big-endian) |
| WordCodec.DecodeHexConcat | tools/hex_to_image.py:12 | decoding a concatenation is concatenating the decodings |
| WordCodec.DecodeEncode | tools/png_to_input_assets.py:58 | `fromhex(hex(b)) == b` |
| WordCodec.EncodeDecode | tools/coe_to_image.py:47 | `hex(fromhex(s))` is `s` lowercased |
| CoeFormat.WriteCoe | tools/png_to_input_assets.py:62-68 | the write loop produces the text of `CoeLines(words)` |
| CoeFormat.CoeLinesLayout | tools/png_to_input_assets.py:64-68 | radix line, vector line, then `  w,` for every word but the last, `  w;` for the last; just the header for no words |
| CoeFormat.CoeLines | tools/image_to_coe.py:45-53 | a COE file has two lines more than it has words |
| CoeFormat.HeaderLines | tools/image_to_coe.py:47-48 | neither header line is blank, and only the vector line starts with the vector token |
| CoeFormat.WordLineStripped | tools/image_to_coe.py:49-53 | a stripped word line is the word and its delimiter, and it does not start with the token |
| CoeFormat.CoeLinesSingle | tools/image_to_coe.py:47-53 | no written line contains a newline of its own |
| PgmFormat.PgmHeader | tools/png_to_input_assets.py:48 | the header is `P5\n{w} {h}\n255\n` |
| PgmFormat.PgmFile | tools/png_to_input_assets.py:46-49 | the file is the header bytes, starting `P5\n`, followed by the data unchanged |
| PgmFormat.AsciiBytes | tools/coe_to_image.py:61 | the encoded header has one byte per character |
| PgmFormat.ReadLine | tools/image_to_coe.py:17 | `readline()` returns a line ending at the first newline; line and remainder make up the input |
| PgmFormat.NextNonComment | tools/image_to_coe.py:21-25 | the line returned does not start with `#`, and the rest is a suffix of the input |
| PgmFormat.ReadNonComment | tools/image_to_coe.py:21-25 | the skip loop computes `NextNonComment` |
| PgmFormat.ReadPgm | tools/image_to_coe.py:15-32 | the reader computes `ReadPgmSpec` |
| PgmFormat.ReadHeader | tools/image_to_coe.py:17-30 | an accepted header has maxval at most 255, and its payload is a suffix of the file |
| PgmFormat.HeaderOf | tools/image_to_coe.py:18-30 | the magic, dimensions and maxval checks; an accepted header's payload is what follows the maxval line |
| PgmFormat.PyRead | tools/image_to_coe.py:31 | `f.read(n)` on a buffered binary reader fails exactly when n < -1, with `BadReadLength(n)`; otherwise it returns at most n bytes, as a prefix, with no padding; n == -1 reads everything |
| PgmFormat.MagicRequired | tools/image_to_coe.py:17-19 | a first line that is not `P5` once stripped is refused |
| PgmFormat.CommentsSkipped | tools/image_to_coe.py:23-24 | any number of `#` lines before a line are skipped |
| PgmFormat.CommentsBeforeDims | tools/image_to_coe.py:21-26 | comment lines before the dimensions do not change the result |
| PgmFormat.CommentsBeforeMaxval | tools/image_to_coe.py:28 | comment lines before the maxval line do not change the result |
| PgmFormat.HeaderDecidedBy | tools/image_to_coe.py:17-31 | the result depends only on the three header lines and what follows them |
| PgmFormat.WideMaxvalRefused | tools/image_to_coe.py:29-30 | a maxval above 255 is refused |
| PgmFormat.ReadPgmLength | tools/image_to_coe.py:31 | after an accepted header the read succeeds exactly when width*height >= -1, and below that fails with `BadReadLength`; the returned pixels are a prefix of the payload, of length min(width*height, payload length) when the product is not negative, and the whole payload when it is -1 |
| PgmFormat.ParseDims | tools/image_to_coe.py:26-27 | the dimensions parse exactly when the stripped line splits into two fields and each is an optionally signed run of decimal digits |
| PgmFormat.DimsRoundTrip | tools/image_to_coe.py:26-27 | a written dimension line parses back to the width and height |
| PgmFormat.NumberRoundTrip | tools/image_to_coe.py:28 | a written maxval line parses back to its number |
| PgmFormat.HeaderLinesRead | tools/image_to_coe.py:17-28 | the reader sees a written header as its three lines |
| PgmFormat.HeaderRoundTrip | tools/image_to_coe.py:15-31 | any written header reads back with the written width, height and maxval and the following bytes as payload; a maxval above 255 is refused |
| PgmFormat.PgmRoundTrip | tools/image_to_coe.py:15-32 | reading a file `write_pgm` wrote gives `f.read(width*height)` of the data: cut to width*height, the data itself when the sizes agree, and the `BadReadLength` error when width*height < -1 |
| HexLines.LoadHex | tools/compare_hex.py:5-7 | no more words than lines |
| HexLines.LoadHexWords | tools/compare_hex.py:7 | every loaded word is non-empty and stripped |
| HexLines.LoadHexCount | tools/compare_hex.py:7 | one word per non-blank line |
| HexLines.LoadHexAppend | tools/compare_hex.py:7 | loading is line by line and keeps order |
| HexLines.LoadHexIdempotent | tools/hex_to_image.py:6 | loading loaded words changes nothing |
| HexLines.LoadHexNewlines | tools/compare_hex.py:6-7 | the newline each line keeps is dropped by the strip |
| HexLines.WriteHex | tools/png_to_input_assets.py:71-74 | the write loop gives every word followed by `\n`, in order |
| HexLines.HexRoundTrip | tools/coe_to_hex.py:32-35 | loading a written file gives back its words when they are loaded forms without `\n` or `\r` |
| HexLines.WordsRoundTrip | tools/reverse_hex.py:5-9 | 32-character hex words survive writing and loading back |
| HexLines.FirstBadWord | tools/hex_to_image.py:9-11 | none exactly when all words are valid; otherwise the first invalid one |
| CoeReader.Kinds | tools/coe_to_hex.py:8-16 | the scan gives exactly one class (blank, vector start, body) per line |
| CoeReader.KindsNewlines | tools/coe_to_hex.py:8-9 | a line's newline does not change its class |
| CoeReader.ScanPreamble | tools/coe_to_image.py:25-29 | lines up to and including the first token line are ignored |
| CoeReader.ScanHeader | tools/coe_to_image.py:25-27 | after a body line and the token line, collection starts |
| CoeReader.ScanNoVector | tools/coe_to_image.py:28-29 | without a token line nothing is collected and nothing fails |
| CoeReader.ScanErrorFinal | tools/coe_to_hex.py:24-27 | the first failing line decides the result |
| CoeReader.ScanBodies | tools/coe_to_hex.py:28 | successful body lines contribute their items in file order |
| CoeToImage.ScanLine | tools/coe_to_image.py:22-49 | the loop body classifies a line as the scan specifies |
| CoeToImage.ParseCoe | tools/coe_to_image.py:17-51 | the loop computes `CoeBytes(lines)` |
| CoeToImage.DropDelimiters | tools/coe_to_image.py:30-35 | the delimiters removed are a suffix of the line |
| CoeToImage.VectorBytes | tools/coe_to_image.py:36-49 | a length error always reports an odd length |
| CoeToImage.DropDelimitersOf | tools/coe_to_image.py:30-35 | the cleaned line is `w` exactly for `w`, then commas, then at most one `;` (with `w` not ending in `,`, nor in a `;` that would be taken for the last one) |
| CoeToImage.VectorBytesText | tools/coe_to_image.py:36-49 | for every line whose cleaned form is a non-empty `w`: the spaces in `w` are dropped; an odd count left is `InvalidHexLength` with that count and `w`; an even count with a non-hex character is `InvalidHex(w)`; otherwise the decoded bytes |
| CoeToImage.VectorBytesBlank | tools/coe_to_image.py:36-37 | a line of delimiters only gives no bytes and no error |
| CoeToImage.VectorBytesOf | tools/coe_to_image.py:30-47 | an even-length hex word followed by commas and at most one `;` decodes to its bytes, whatever its length |
| CoeToImage.HexHasNoSpace | tools/coe_to_image.py:41 | removing spaces leaves a hex word unchanged |
| CoeToImage.OddLengthRejected | tools/coe_to_image.py:30-44 | any odd-length hex word, followed by commas and at most one `;`, raises the length error with its length and the word |
| CoeToImage.DoubleSemicolonRejected | tools/coe_to_image.py:30-44 | for any hex word `w`, only one `;` of `w;;` is removed: for even `len(w)` it fails the length check with length `len(w) + 1` and the line `w;`; for odd `len(w)` it fails the hex check on `w;` |
| CoeToImage.PreambleSkipped | tools/coe_to_image.py:22-29 | nothing before the first token line is read |
| CoeToImage.ErrorIsFinal | tools/coe_to_image.py:43-49 | after an error nothing further is read and no bytes are returned |
| CoeToImage.FlattenDecodes | tools/coe_to_image.py:47-50 | the extended buffer is the words decoded and joined |
| CoeToImage.CoeRoundTrip | tools/coe_to_image.py:17-50 | parsing written lines of even-length words gives their bytes in order |
| CoeToImage.CoeTextRoundTrip | tools/coe_to_image.py:19-21 | the same holds when those lines are read back from the written text |
| CoeToImage.PackedCoeRead | tools/image_to_coe.py:62-64 | reading the packer's COE file gives the data padded to a multiple of 16 |
| CoeToImage.WritePgm | tools/coe_to_image.py:54-62 | the file is the header followed by the samples fitted to width*height |
| CoeToImage.CoeToPgm | tools/coe_to_image.py:73-74 | an image is produced exactly when parsing succeeds; otherwise the parser's error is returned |
| CoeToHex.VectorWord | tools/coe_to_hex.py:18-27 | a vector line yields at most one word, a hex numeral with no spaces |
| CoeToHex.ScanLine | tools/coe_to_hex.py:9-28 | the loop body classifies a line as the scan specifies |
| CoeToHex.ParseCoeLines | tools/coe_to_hex.py:4-29 | the loop computes `CoeWords(lines)` |
| CoeToHex.CoeToHexText | tools/coe_to_hex.py:32-35 | an error is returned exactly when parsing fails, and otherwise the parsed words one per line |
| CoeToHex.VectorWordOf | tools/coe_to_hex.py:18-28 | a hex word followed by any mix of `,` and `;` is kept verbatim: case and length are preserved |
| CoeToHex.VectorWordText | tools/coe_to_hex.py:18-28 | for every line whose cleaned form is a non-blank `w` (whitespace, `w`, whitespace, then any mix of `,` and `;`): the word is `w` without its spaces when that is a hex numeral, and otherwise the error `Invalid hex word` names `w` |
| CoeToHex.VectorWordBlank | tools/coe_to_hex.py:18-20 | a line of whitespace and delimiters only gives no word and no error |
| CoeToHex.PreambleSkipped | tools/coe_to_hex.py:12-16 | lines up to and including the first token line are skipped |
| CoeToHex.NoVectorNoWords | tools/coe_to_hex.py:15-16 | a file without a token line yields no words |
| CoeToHex.ErrorIsFinal | tools/coe_to_hex.py:24-27 | the parse aborts at the first bad word |
| CoeToHex.CoeRoundTrip | tools/coe_to_hex.py:4-29 | parsing written lines gives back their words in order |
| CoeToHex.CoeTextRoundTrip | tools/coe_to_hex.py:8-28 | the same holds when those lines are read back from the written text |
| CoeParsers.DoubledSemicolon | tools/coe_to_hex.py:18 | for any non-empty hex word `w`, `w;;` is the word `w` to `coe_to_hex`; to `coe_to_image` it is a length error on `w;` when `len(w)` is even and a hex error on `w;` when it is odd |
| CoeParsers.OddWord | tools/coe_to_hex.py:24-28 | any odd-length hex word followed by commas is that word to `coe_to_hex` and a length error to `coe_to_image` |
| CoeParsers.ParsersAgree | tools/coe_to_image.py:17-51 | on a written file of even-length words the parsers agree: the bytes are the decoded words |
| CompareHex.Compare | tools/compare_hex.py:10-27 | the report is `CompareWords` of the two loaded files |
| CompareHex.FindMismatches | tools/compare_hex.py:16-20 | the loop lists the mismatch positions below the common length |
| CompareHex.Mismatches | tools/compare_hex.py:17-20 | at most one mismatch per compared position |
| CompareHex.Limited | tools/compare_hex.py:13-15 | with a limit, a list is cut to its first `limit` entries |
| CompareHex.MismatchesMembers | tools/compare_hex.py:18-20 | a position is listed exactly when it is compared and the words differ after lowercasing |
| CompareHex.MismatchesAscending | tools/compare_hex.py:18-20 | positions are listed in strictly increasing order |
| CompareHex.MismatchesPrefix | tools/compare_hex.py:16-18 | entries beyond the compared length are irrelevant |
| CompareHex.ReportFields | tools/compare_hex.py:21-27 | the report after truncation: the lengths; `compared == min`; the total count; the first min(10, count) positions, ascending |
| CompareHex.SelfCompare | tools/compare_hex.py:16-20 | a list against itself: no mismatches, and every entry compared |
| CompareHex.LengthAloneIsNoMismatch | tools/compare_hex.py:16-18 | extra entries at the end add no mismatches |
| CompareHex.MismatchesSymmetric | tools/compare_hex.py:19 | the mismatch list does not depend on which list comes first |
| CompareHex.CompareSymmetric | tools/compare_hex.py:10-27 | swapping the files swaps the lengths and changes nothing else |
| HexToImage.DecodeWords | tools/hex_to_image.py:8-12 | the loop gives the first bad word's error, or else all words decoded and joined |
| HexToImage.Convert | tools/hex_to_image.py:4-22 | the conversion computes `HexImage` |
| HexToImage.HexImage | tools/hex_to_image.py:9-11 | it fails exactly when some loaded word is not 32 hex characters, and names the first such word |
| HexToImage.Samples | tools/hex_to_image.py:12-18 | on valid input the samples are exactly width*height: the words' bytes in order, then zeros, cut to a prefix when long |
| HexToImage.WordsImage | tools/hex_to_image.py:8-18 | lines whose loaded words are all strict words give the image of those words' bytes, fitted to width*height |
| HexToImage.PackedHexImage | tools/hex_to_image.py:4-22 | the packer's HEX file becomes the image of the packed bytes; the packer's padding is invisible |
| HexToCoe.ValidateWords | tools/hex_to_coe.py:7-9 | the validation loop finds the first word that is not 32 hex characters |
| HexToCoe.Convert | tools/hex_to_coe.py:3-15 | the conversion computes `HexCoe`; validation ends before any output |
| HexToCoe.HexCoe | tools/hex_to_coe.py:5-15 | fails exactly when some word is bad, naming the first bad word's index among non-blank lines; otherwise the COE text of the loaded words |
| HexToCoe.LineCount | tools/hex_to_coe.py:11-15 | the output has two header lines plus one line per non-blank input line |
| HexToCoe.HexRoundTrip | tools/hex_to_coe.py:13-15 | `coe_to_hex` reads back the loaded words verbatim, in order |
| HexToCoe.BytesRoundTrip | tools/hex_to_coe.py:11-15 | `coe_to_image` reads back the loaded words' bytes |
| HexToCoe.PackedHexCoe | tools/hex_to_coe.py:3-15 | the packer's HEX file converts to the COE file of the packed words |
| SanitizeHex.Sanitize | tools/sanitize_hex.py:5-19 | the script writes the `Sanitized` words one per line |
| SanitizeHex.CleanLines | tools/sanitize_hex.py:10-16 | the cleaning loop computes `Clean` |
| SanitizeHex.FixLine | tools/sanitize_hex.py:11-16 | the loop body keeps a valid word, zeroes a non-blank line and drops a blank one |
| SanitizeHex.Chomped | tools/sanitize_hex.py:7 | one chomped line per input line |
| SanitizeHex.ChompStrip | tools/sanitize_hex.py:7-11 | removing `\r\n` first does not change the stripped line |
| SanitizeHex.Repair | tools/sanitize_hex.py:11-16 | a valid word is kept unchanged, any other becomes `"0"*32` |
| SanitizeHex.SanitizedIsRepaired | tools/sanitize_hex.py:7-16 | sanitizing is loading and then repairing each word in place |
| SanitizeHex.Counted | tools/sanitize_hex.py:10-16 | one output word per non-blank line, each a valid word; the function never fails |
| SanitizeHex.Positions | tools/sanitize_hex.py:11-16 | output word i is loaded word i when valid, zeros otherwise |
| SanitizeHex.ValidUnchanged | tools/sanitize_hex.py:11-12 | valid input comes out as its loaded words |
| SanitizeHex.Idempotent | tools/sanitize_hex.py:5-19 | sanitizing the written output again reproduces it |
| SanitizeHex.Accepted | tools/sanitize_hex.py:17-19 | the output passes the strict checks of `hex_to_coe` and `hex_to_image` |
| SanitizeHex.ZeroWordBytes | tools/sanitize_hex.py:16 | the replacement word stands for sixteen zero bytes |
| ReverseHex.ReverseFile | tools/reverse_hex.py:3-9 | the script writes the reversed loaded lines one per line |
| ReverseHex.Reverse | tools/reverse_hex.py:6 | the reversed list has the same length, and entry i is entry len-1-i |
| ReverseHex.ReverseReverse | tools/reverse_hex.py:6 | reversing twice gives the list back |
| ReverseHex.ReversePermutes | tools/reverse_hex.py:6 | reversal only reorders: the multiset of lines is kept |
| ReverseHex.ReverseAppend | tools/reverse_hex.py:6 | reversing a concatenation swaps the reversed parts |
| ReverseHex.Positions | tools/reverse_hex.py:5-6 | one line per non-blank input line, in the opposite order, with no validation |
| ReverseHex.ReverseTwice | tools/reverse_hex.py:5-9 | running the tool on its own output restores the loaded lines, when they hold no `\n` or `\r` |

## Left out

- File I/O (`open`, `readline`, `read`, `write`), `print`, argument handling (`sys.argv`, `int(sys.argv[i])`, `sys.exit`) and every `main`/`__main__` block. File contents are parameters and outputs are returned values. This includes the rule in `png_to_input_assets.py` that a non-integer second argument is treated as the prefix.
- `image_to_grayscale_bytes` in `png_to_input_assets.py`: it decodes, converts and resamples the image through Pillow, and it rejects a non-square image when no size is given. Pillow is not part of this model.
- `tools/pgm_to_png.py`: a thin wrapper over Pillow.
- Unicode case: the model's `lower()` (`Text.Lower`) maps only the ASCII letters `A`-`Z`. Python's `str.lower()` also maps non-ASCII letters, and for some it changes the length (`'İ'` becomes two code points). So two loaded words that differ only in the case of non-ASCII letters are a mismatch in the model (`CompareHex.Differs`) and not in the script. The other direction holds: words equal under the model's `lower()` are equal under Python's, so the model reports every mismatch the script reports.
- Text encodings: a character of a text file is a Dafny `char`; decoding the file's bytes is not modelled.
- CoeToHex.VectorWord: Python's `int(word, 16)` also accepts a sign, a `0x` prefix, underscores and non-ASCII digits. The model accepts exactly the non-empty strings of ASCII hex digits, so it rejects those forms.
- CoeToImage.VectorBytes: `bytes.fromhex` also skips whitespace between digit pairs. The model needs every character to be a hex digit. Spaces are removed before the call in any case, so only tabs and other whitespace inside a word behave differently.
- PgmFormat.ParseDims: `map(int, dims.split())` raises for several reasons: the wrong number of fields, and a field that is not a number. The model merges them into the single error `BadDimensions`.
- PgmFormat.HeaderOf: `int()` also accepts underscores between digits. The model does not.
- PgmFormat.AsciiBytes: `str.encode()` of a header with a non-ASCII character gives UTF-8 bytes, or raises for `encode('ascii')`. The headers written are ASCII, so the model keeps each character code modulo 256.
- ReverseHex.ReverseFile: `lines.reverse()` reverses the list in place. The model reassigns the local list to its reversal; nothing else refers to the list.
