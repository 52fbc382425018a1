# Frame decoder of `cf-nf_data.py`, modelled in Dafny

`critical_fpga/src/py/cf-nf_data.py` is a Python 2 script. It reads a
captured telemetry dump as one string, cuts it into frames at the sync word
`AAFF`, and decodes every 244-character frame. Each frame's bytes are read in
reverse order. The first 58 bytes form the *critical* region, which holds 23
named fields. Each field is written, as one line, to its own output file with
one of five rules: unsigned decimal, hex passthrough, zero-padded binary,
low-12-bit mask, or 32-bit two's complement (`adc_int`). The four masked
analog values also go, tab-separated, to one combined file.

The model is purely functional. The capture is a `string`. Each output file
is the sequence of lines the run appends to it. A field whose text
`int(text, 16)` rejects is an `Option` failure.

| module | file | what it holds |
|---|---|---|
| `Optional` | optional.dfy | `Option` with `:-` propagation |
| `Numerals` | numerals.dfy | digits, parsing, minimal rendering in a base, `zfill` |
| `PyConv` | pyconv.dfy | the built-ins the script uses: `int(x, 16)`, `hex`, `bin(...)[2:].zfill(w)`, `str`, `&` |
| `Splitting` | splitting.dfy | `str.split` on the sync word, and `join` as its inverse |
| `Frames` | frames.dfy | the 244-character length filter, byte reversal, and the critical/paged cut |
| `Layout` | layout.dfy | the 23-field descriptor table and its tiling of the critical region |
| `Decoding` | decoding.dfy | the five decode rules and the text each one writes |
| `Pipeline` | pipeline.dfy | the per-frame write sequence, the loop over frames, and what each file ends up holding |

Three points where the model follows the code rather than a tidier reading:

- **A parse failure ends the whole program.** `int(text, 16)` raising
  `ValueError` is never caught, so it is not a per-frame skip. The model
  keeps every line already written:
  - the lines of earlier frames;
  - the combined line and the fields before the failing one, in the failing
    frame.

  The four analog fields are parsed first (lines 98-101). A failure there
  leaves nothing of that frame.
- **`serial_data` is never parsed** (line 109). A non-hex character there
  does not fail. In every other field it does.
- **Masked values are parsed twice.** They are masked, turned into `hex()`
  literals, and then parsed again with `int(..., 16)` when written (lines
  103-106, 119-122). So `int(x, 16)` must accept the `0x` prefix, and the
  model keeps the round trip through the literal.

## Model

| member | source | states |
|---|---|---|
| Splitting.Split | critical_fpga/src/py/cf-nf_data.py:31 | `split` returns at least one piece for every capture, the empty one included, so the loop always has a piece to look at |
| Splitting.SplitJoin | critical_fpga/src/py/cf-nf_data.py:31 | joining the pieces of `capture.split('AAFF')` with the sync word gives back the capture, so the split loses nothing but the sync words |
| Splitting.SplitPiecesFree | critical_fpga/src/py/cf-nf_data.py:31 | no piece contains the sync word: every occurrence was cut |
| Pipeline.Accepted | critical_fpga/src/py/cf-nf_data.py:65-67 | the decoded pieces are exactly the pieces of 244 characters: every one of them, and no other |
| Pipeline.AcceptedAppend | critical_fpga/src/py/cf-nf_data.py:65-67 | acceptance works piece by piece, so accepted frames keep their capture order |
| Pipeline.SkipRejected | critical_fpga/src/py/cf-nf_data.py:65-67 | a piece of any other length contributes nothing: decoding the capture is decoding its accepted frames alone |
| Frames.ByteTokens | critical_fpga/src/py/cf-nf_data.py:69 | a frame gives 122 two-character tokens, and token k is characters [len-2k-2, len-2k) of the piece |
| Frames.ByteTokensAreReversedChunks | critical_fpga/src/py/cf-nf_data.py:69 | the tokens are the reading-order byte pairs fully reversed, not swapped pairwise |
| Frames.NormalizeTwice | critical_fpga/src/py/cf-nf_data.py:69 | reversing the reversed, re-joined tokens gives the reading order back; re-joining the tokens in reverse order restores the frame |
| Frames.Normalize | critical_fpga/src/py/cf-nf_data.py:71-72 | critical (58 tokens) followed by paged (64 tokens) is the whole token list, so the two partition it; critical token k is characters [2(121-k), 2(121-k)+2) of the frame |
| Layout.TableTiles | critical_fpga/src/py/cf-nf_data.py:74-96 | the 23 field ranges are non-empty and laid end to end from token 0 to token 58 |
| Layout.FieldsPartitionCritical | critical_fpga/src/py/cf-nf_data.py:74-96 | the field slices are pairwise disjoint, in increasing offset order, and cover every critical token; concatenated they are `critical[0:58]` |
| Layout.FieldText | critical_fpga/src/py/cf-nf_data.py:74-96 | a field's text is its tokens joined in order: it has 2 characters per token, and cut back into pairs it gives the field's tokens again; every field's token range is non-empty and inside the critical region |
| Layout.PassthroughIsSerial | critical_fpga/src/py/cf-nf_data.py:75-96 | `serial_data`, the second field, is the only field the table copies without parsing |
| Layout.TableWidths | critical_fpga/src/py/cf-nf_data.py:74-130 | each rule fits its field's size: binary width is 8 per byte, masked fields are 2 bytes, signed fields 4 bytes, and the one passthrough field is `serial_data`, tokens [2, 5) |
| Decoding.AdcInt | critical_fpga/src/py/cf-nf_data.py:33-37 | for a 32-bit input, the result lies in [-2^31, 2^31) and equals the input modulo 2^32 |
| Decoding.AdcIntInverse | critical_fpga/src/py/cf-nf_data.py:33-37 | every signed 32-bit value is `adc_int` of its two's-complement pattern, so no value is lost |
| Decoding.AdcIntBoundaries | critical_fpga/src/py/cf-nf_data.py:33-37 | 0 -> 0, 0x7FFFFFFF -> 2147483647, 0x80000000 -> -2147483648, 0xFFFFFFFF -> -1 |
| Decoding.Mask12Of | critical_fpga/src/py/cf-nf_data.py:98-101 | `v & 0x0FFF` is at most 4095 and equals v mod 4096 (its low 12 bits) |
| Decoding.Mask12Examples | critical_fpga/src/py/cf-nf_data.py:98-101 | 0x1FFF -> 4095, 0x0FFF -> 4095, 0 -> 0 |
| PyConv.BitAnd | critical_fpga/src/py/cf-nf_data.py:98-101 | `a & b` on non-negative integers is at most each operand |
| PyConv.BitAndLowMask | critical_fpga/src/py/cf-nf_data.py:98-101 | `v & (2^k - 1)` is v mod 2^k for every v and k |
| PyConv.HexLiteral | critical_fpga/src/py/cf-nf_data.py:98-101 | `hex(n)` is a `0x`-prefixed literal with at least one digit, so `int(..., 16)` takes its prefixed form |
| PyConv.HexLiteralRoundTrip | critical_fpga/src/py/cf-nf_data.py:98-101 | `int(hex(n), 16) == n`: the masked literal parses back to the masked value |
| PyConv.IntBase16 | critical_fpga/src/py/cf-nf_data.py:34 | `int(text, 16)` succeeds exactly on non-empty hex digits with an optional `0x` prefix; plain digits parse to their base-16 value, below 16^len |
| Decoding.DecodeField | critical_fpga/src/py/cf-nf_data.py:98-130 | the passthrough rule never fails and returns the text; every other rule fails exactly when `int(text, 16)` does; the mask rule gives the value mod 4096 |
| Decoding.NonHexFails | critical_fpga/src/py/cf-nf_data.py:108-130 | a parsed field made of hex digits decodes, and one holding any other character (except the `x` of a leading `0x`) fails |
| Decoding.SerialPassthrough | critical_fpga/src/py/cf-nf_data.py:109 | `serial_data` writes tokens 2, 3 and 4 joined, six characters, unparsed, whatever they contain |
| Decoding.UnsignedFieldLine | critical_fpga/src/py/cf-nf_data.py:108-118 | an unsigned field's line, read as decimal, is the base-16 value of its joined tokens |
| Decoding.BinaryFieldLine | critical_fpga/src/py/cf-nf_data.py:110-124 | a binary field's line has exactly 8 characters per byte, all '0' or '1', and read in base 2 they give the field's hex value |
| PyConv.BinText | critical_fpga/src/py/cf-nf_data.py:110 | `bin(n)[2:].zfill(w)` has at least w characters, every one a binary digit |
| PyConv.BinTextExact | critical_fpga/src/py/cf-nf_data.py:110 | `bin(n)[2:].zfill(w)` for n < 2^w is exactly w binary digits denoting n |
| Numerals.ZFillValue | critical_fpga/src/py/cf-nf_data.py:110 | left zero padding keeps a digit string's value |
| Decoding.MaskedFieldLine | critical_fpga/src/py/cf-nf_data.py:119-122 | a masked field decodes to `v & 0x0FFF`, in [0, 4095], and its line reads back as v mod 4096 |
| Decoding.SignedFieldLine | critical_fpga/src/py/cf-nf_data.py:125-130 | a signed field's value lies in [-2^31, 2^31), its 32-bit pattern is the field's hex value, and its line reads back as that value |
| PyConv.DecText | critical_fpga/src/py/cf-nf_data.py:108 | `str(n)` is never empty |
| PyConv.DecTextCanonical | critical_fpga/src/py/cf-nf_data.py:108 | `str(n)` starts with '0' exactly when n is 0, and a negative number's '-' is followed by a non-zero digit |
| PyConv.DecTextRoundTrip | critical_fpga/src/py/cf-nf_data.py:108 | `str(n)` reads back as n, negative numbers included |
| Pipeline.AnalogLine | critical_fpga/src/py/cf-nf_data.py:103-106 | the combined line ends in a newline; before it, it holds a newline exactly when one of the four values does; with tab-free values it splits on tabs back into ana_0, ana_1, ana_2 and ana_3 |
| Pipeline.AnalogLineFields | critical_fpga/src/py/cf-nf_data.py:103-106 | the combined line ends in a newline, and splitting the rest on tabs gives the masked ana_0, ana_1, ana_2 and ana_3, in that order |
| Pipeline.FieldWrites | critical_fpga/src/py/cf-nf_data.py:108-130 | the field writes from field j on complete exactly when fields j to 22 all parse |
| Pipeline.FieldWritesSink | critical_fpga/src/py/cf-nf_data.py:108-130 | from field j on, the file of field i gets one line, its own, exactly when fields j to i all parse, and nothing otherwise |
| Pipeline.FrameWrites | critical_fpga/src/py/cf-nf_data.py:98-130 | a frame's writes complete exactly when every field decodes |
| Pipeline.FrameSinkLines | critical_fpga/src/py/cf-nf_data.py:98-130 | a frame makes no write when an analog field fails; otherwise it writes the combined line, and to field i's file its line exactly when fields 0 to i parse; never more than one write per file |
| Pipeline.Process | critical_fpga/src/py/cf-nf_data.py:65-130 | the loop over the pieces runs to the end exactly when every piece of 244 characters fully decodes |
| Pipeline.DecodeCapture | critical_fpga/src/py/cf-nf_data.py:30-31 | the program over a capture runs to the end exactly when every 244-character piece between sync words fully decodes |
| Pipeline.ProcessIsRun | critical_fpga/src/py/cf-nf_data.py:65-130 | over accepted frames, the decoding loop is the run over their decode results |
| Pipeline.FirstFailure | critical_fpga/src/py/cf-nf_data.py:65-130 | the first frame that does not fully decode: every frame before it decodes, and it does not |
| Pipeline.RunSinkLines | critical_fpga/src/py/cf-nf_data.py:65-130 | each file receives one write per frame before the first failure, the k-th from the k-th frame, then what the failing frame wrote; the run completes exactly when no frame fails |
| Pipeline.CaptureSinkLines | critical_fpga/src/py/cf-nf_data.py:31-130 | the same for a whole capture, over its accepted frames in capture order |
| Pipeline.RunCompletesIff | critical_fpga/src/py/cf-nf_data.py:31-130 | the program runs to the end exactly when every accepted frame fully decodes |
| Pipeline.SinksAligned | critical_fpga/src/py/cf-nf_data.py:31-130 | after a complete run every file has received exactly one write per accepted frame, and its k-th write comes from the k-th accepted frame |
| Pipeline.FailureStopsRun | critical_fpga/src/py/cf-nf_data.py:31-130 | a run that stops did so at an accepted frame that does not decode; every frame before it made its write to every file, and it made at most one more |
| Pipeline.FrameTextLines | critical_fpga/src/py/cf-nf_data.py:103-130 | each write of a frame is exactly one newline-terminated text line, unless it is the `serial_data` write and that field's characters hold a newline |
| Pipeline.CaptureTextLines | critical_fpga/src/py/cf-nf_data.py:30-130 | every write a run sends to a file is one text line, for `serial_data.txt` provided no accepted piece has a newline among its serial characters |

## Left out

- Command-line parsing with `getopt` (lines 8-22): argument handling, no decoding.
- Deriving the output directory by regular expression and creating it (lines 23-28): filesystem work. The capture's text (line 30) is a parameter of `DecodeCapture`.
- Opening the 24 per-field and combined files (lines 40-63); `log.txt`, opened at line 39, is covered below. Each file is a `Sink`, and its contents are the lines the run sends to it; buffering and closing are not modelled. The file name `cycle_period .txt`, with its space, is therefore not represented.
- The `log.txt` block (lines 132-155). It re-renders, with fixed labels, values that the same rules have already parsed successfully earlier in the frame. It cannot fail where the field writes did not, and adds no decode rule.
- The paged region (line 71): it is extracted, and its 64 tokens are kept in `Frames.Frame`, but it is never decoded.
- The unused imports (`struct`, `binascii`, `time`) and the commented-out sleep (line 157).
- Pipeline.SinksAligned: a file's lines are counted as writes. A write is one text line except when the `serial_data` characters hold a newline: the capture keeps its newlines (line 30) and that field is never parsed. `Pipeline.CaptureTextLines` states when writes and text lines coincide.
- The combined line is four `write` calls (lines 103-106); the model makes it one write, since nothing can fail between them and the file ends up the same.
- PyConv.IntBase16: Python's `int(text, 16)` also accepts surrounding whitespace and a leading sign. The model treats such text as a parse failure. The `0x` prefix is modelled because lines 119-122 rely on it.
- Python 2 reads the capture as bytes; the model reads it as a string of characters, and compares them one by one.
