# xjis: a Shift JIS hex viewer, modelled in Dafny

`xjis.py` is an xxd-style viewer. It prints a binary input as lines with three
columns: an offset, the raw bytes in hex, and a text column. The text column shows
each 2-byte window that decodes as Shift JIS, and shows `.` for control characters
and for bytes that do not decode. Each line carries 16 raw bytes. A decoded pair
whose first byte completes a line keeps its characters on that line. Its second byte
is held over and opens the next line.

The model has two parts.

- **`display` (xjis.py:41-74)** is modelled twice.
  - `ScanEngine.Display` is an imperative method that mirrors the Python loop.
  - `Attempt`, `Flush`, `Step` and `Run` form a step-by-step state machine that specifies it. `Display` is proved to compute exactly `Scan = Run(AsWritten, Start)`.
  
  The state machine also has a `Corrected` mode, which fixes the three defects listed under "## Findings". `ScanProperties` proves, about both modes:
  - the accounting of each iteration;
  - the line width and the offsets;
  - the carry across a line boundary;
  - byte completeness;
  - the order and classification of characters;
  - how a run ends.
- **`print_line` (xjis.py:32-38)** is modelled as the pure function `LineFormat.PrintLine`. It is pinned down by a parser `ParseLine` and a round-trip lemma. `ParseLine` reads the offset, the bytes and the characters back from the line.

The Shift JIS codec and the Unicode category test are parameters of the model:

- `Decoder = seq<byte> -> Option<seq<char>>` stands for `data[i:i+2].decode('shift_jis')`. `None` stands for `UnicodeDecodeError`.
- `IsOther = char -> bool` stands for `unicodedata.category(ch)[0] == 'C'`.

Every property is therefore proved for every codec and every category table.

A run ends in one of three ways (`Status`):

- `Completed`;
- `IndexError(index)`, from reading `data[index]` past the end;
- `TypeError(pendingBytes, pendingChars)`, from the misargumented final `print_line` call.

Both errors are ordinary results of the model, not preconditions.

Files:
- `common.dfy`: byte and option types.
- `line_format.dfy`: `print_line`.
- `scan_engine.dfy`: the loop, both as a specification and as a method.
- `scan_properties.dfy`: the loop's properties.
- `findings.dfy`: the three defects, each on a concrete input.

## Model

| member | source | states |
|---|---|---|
| ScanEngine.Display | xjis.py:41-74 | The loop as written, over the already-read input, returns exactly the lines and status of `Scan(data)`. The text it writes is one `PrintLine` per printed line, in order. |
| ScanEngine.Consume | xjis.py:49-64 | The `try`/`except` block on the loop's locals agrees with `Attempt`. It either extends the line by the decoded window, or by one byte and one `.`. It reports a crash (with `i` unchanged) exactly when `Attempt` gives `Crash(i+1)`. |
| ScanEngine.AppendShown | xjis.py:51-54 | The inner `for ch in chars` loop appends the decoded chars in order, with each `C*` char replaced by `.`. |
| ScanEngine.Window | xjis.py:50 | `data[i:i+2]` has two bytes, or one byte when `i` is the last index. It starts with `data[i]`. |
| ScanEngine.Step | xjis.py:48-72 | An iteration that does not crash strictly advances the cursor and stays within the input, so the loop terminates. |
| ScanEngine.Attempt | xjis.py:49-64 | The `try`/`except` block as a function of the loop state. A failed decode appends one byte and one `.`. A successful decode appends the shown chars and the window's first byte. It then appends the second byte, holds it when the line is full, or crashes when there is no second byte (corrected: consumes the one byte). Its contract: the cursor advances by the window's length after a decode and by one byte after a failure. |
| ScanEngine.Shown | xjis.py:51-54 | The decoded chars as displayed: same length; each `C*` char becomes `.`; every other char is kept. |
| ScanEngine.Seeds | xjis.py:69 | Whether the flush re-seeds the next line with the held byte: as written, only a held byte that is non-zero (`if next_byte:`); corrected, any held byte. Pinned down by `StepSplitCarry` and `FlushBytes`. |
| ScanEngine.Flush | xjis.py:65-72 | The flush check leaves the cursor alone and a line under 16 bytes untouched. A full line is appended to the printed lines at the current offset. The offset advances by 16. The chars are reset, and the new line holds at most the one seeded byte. |
| ScanEngine.Run | xjis.py:48-74 | The loop from a state to its end, followed by the final-remainder handling: `IndexError` on a crash; `Completed` with nothing pending; as written `TypeError` with the pending bytes and chars; corrected, the partial line printed. Its contract: a run only appends to the lines already printed, never changes them. |
| ScanEngine.Scan | xjis.py:41-74 | `display` on the input, as written: the run from the empty start state. Characterised by `ScanShape`, `ScanBytes` and `ScanChars`. |
| ScanEngine.ScanCorrected | xjis.py:41-74 | `display` as evidently intended: the corrected run from the empty start state. Characterised by `CorrectedScanIsComplete`. |
| LineFormat.PrintLine | xjis.py:32-38 | The text `print_line` writes: the offset field, `' │ '`, the byte column, `' │ '`, the chars, and a newline. Pinned down by `PrintLineRoundTrip`. |
| LineFormat.ByteColumn | xjis.py:34 | `' '.join(f'{x:02x}' for x in line_bytes)`: each byte as `Hex2`, with single spaces between neighbours. Pinned down by `ByteColumnRoundTrip`. |
| LineFormat.ToDigits | xjis.py:35-36 | The decimal or lowercase hex digits of a non-negative offset, most significant first and without leading zeros. Pinned down by `ToDigitsShape` and `ToDigitsRoundTrip`. |
| ScanProperties.StepConsumes | xjis.py:48-64 | An iteration that decodes consumes the whole window: two bytes, or one at the end. An iteration whose decode fails consumes exactly one byte and shows exactly one `.`. The printed and pending chars grow by exactly that unit's chars. As written, an iteration crashes if and only if a one-byte final window decodes. |
| ScanProperties.AttemptNeverOverfills | xjis.py:55-59 | Inside an iteration the line never passes 16 bytes. The held byte changes only when the line has just reached 16 bytes, and it then holds the pair's second byte. |
| ScanProperties.StepKeepsShape | xjis.py:55-72 | Each iteration keeps the line shape. The current line stays under 16 bytes. Printed lines have 16 bytes and line k has offset 16·k. Nothing is held except, as written, a dropped 0x00. |
| ScanProperties.StepSplitCarry | xjis.py:56-71 | When a decoded pair's first byte completes a line, that line is printed with the pair's chars. The offset advances by 16. The next line starts with the pair's second byte and no chars. As written, a 0x00 second byte is dropped instead. |
| ScanProperties.FlushBytes | xjis.py:65-72 | The flush moves the full line to the output without losing a byte or a char. It adds the held byte to the next line only when the truthiness test (or, in the corrected mode, presence) lets it through. |
| ScanProperties.StepKeepsBytes | xjis.py:55-71 | Each iteration keeps this invariant: the printed and pending bytes are the bytes read so far, less some 0x00 bytes. In the corrected mode they are exactly the bytes read. |
| ScanProperties.StepKeepsChars | xjis.py:49-72 | Each iteration keeps this invariant: the printed and pending chars, followed by the transcription of the unread input, are the transcription of the whole input. |
| ScanProperties.TranscribeAt | xjis.py:49-64 | The line-independent transcription of the input from `i` is the unit at `i` (its decoded chars, or one `.`) followed by the transcription after that unit. |
| ScanProperties.RunShape | xjis.py:48-74 | A run from a well-formed state prints lines at offsets 16·k, with 1 to 16 bytes each. Every line but the last is full. As written, every printed line is full. `IndexError` happens only at index `len(data)`, after a decodable final byte. `TypeError` happens only with 1 to 15 bytes pending. The corrected run always completes. |
| ScanProperties.RunBytes | xjis.py:55-74 | Unless a run crashes with `IndexError`, its printed and pending bytes are the input less some 0x00 bytes. In the corrected mode they are exactly the input. |
| ScanProperties.RunChars | xjis.py:49-74 | Unless a run crashes with `IndexError`, its printed and pending chars are the transcription of the input. |
| ScanProperties.ScanShape | xjis.py:43-74 | `display` prints only 16-byte lines, line k at offset 16·k. Empty input prints nothing and completes. `IndexError` happens only when the final byte is a one-byte window that decodes. `TypeError` happens only with 1 to 15 bytes left over. |
| ScanProperties.ScanBytes | xjis.py:55-71 | Unless `display` crashes with `IndexError`, its printed and left-over bytes are the input with at most some 0x00 bytes deleted. They are exactly the input when the input has no 0x00. |
| ScanProperties.ScanChars | xjis.py:49-54 | Unless `display` crashes with `IndexError`, its text columns plus the left-over chars are the transcription of the input, wherever the line boundaries fall: decoded chars in order, `C*` chars as `.`, and one `.` per undecodable byte. |
| ScanProperties.UnalignedInputCrashes | xjis.py:73-74 | An input without 0x00 whose length is not a multiple of 16 never completes normally as written. |
| ScanProperties.CorrectedScanIsComplete | xjis.py:41-74 | The corrected loop always completes. Its lines' bytes concatenate to the input, and their chars to the transcription. All lines but the last have 16 bytes; the last has 1 to 16. Line k is at offset 16·k. No lines are printed exactly when the input is empty. |
| LineFormat.ToDigitsShape | xjis.py:35-36 | The decimal or hex digits of an offset are non-empty, all lowercase digit characters, and start with `0` only for zero. |
| LineFormat.ToDigitsRoundTrip | xjis.py:35-36 | Reading the digits of `n` back in the same base gives `n`. |
| LineFormat.OffsetLabel | xjis.py:35-36 | `{:6d}`/`{:6x}` puts the digits at the right of a field of width `max(6, digits)`. The padding is spaces. A wide offset is never truncated. |
| LineFormat.OffsetLabelRoundTrip | xjis.py:35-36 | Stripping the padding from the offset field and reading the digits gives back the offset. |
| LineFormat.Hex2 | xjis.py:34 | `{:02x}` gives exactly two lowercase hex digits that read back as the byte. |
| LineFormat.ByteColumnRoundTrip | xjis.py:34 | The byte column has length 3n-1. Every third char is a space and the rest are hex digits. Splitting it on spaces and reading each group as hex gives back the bytes. |
| LineFormat.PrintLineRoundTrip | xjis.py:32-38 | Every line `print_line` writes, with the `' │ '` separators and the final newline, parses back into the offset, bytes and chars it was given, for any chars. |
| Findings.FinalSingleByteCrashes | xjis.py:56-59 | On the one-byte input `A`, `display` raises `IndexError` at index 1 and prints nothing. The corrected loop prints one line. |
| Findings.OddAsciiInputCrashes | xjis.py:50-59 | Every ASCII input of odd length ends in `IndexError` at `len(data)`: the pairs decode, then the last byte decodes alone and `data[i+1]` is read. |
| Findings.LeftoverCallCrashes | xjis.py:73-74 | On the one-byte input 0xFF, `display` ends with `TypeError` while `[0xFF]` and `.` are pending. The corrected loop prints one line. |
| Findings.HeldZeroIsDropped | xjis.py:69-71 | On 0xFF, fifteen `A`, 0x00, `display` completes after printing 16 of the 17 bytes. The corrected loop prints the 0x00 as the second line. |

## Left out

- Reading the input and writing the output are not modelled: `instream.read()` (xjis.py:42) and `outstream.write` (xjis.py:38) are I/O. `Display` takes the input as a byte sequence and returns the written lines as strings.
- The command-line block (xjis.py:77-88) is not modelled. It is argument parsing and file opening.
- The Shift JIS table and `unicodedata.category` are not modelled: they are foreign data. They are the parameters `Decoder` and `IsOther`, and every property holds for any choice of them. The concrete findings use a stand-in codec that decodes ASCII windows one char per byte and rejects every other window. The findings use only the bytes 0x00-0x7F and 0xFF, where it agrees with Shift JIS.
- The general `str.format` machinery is not modelled. Only the renderings used are modelled: `{:6d}`, `{:6x}` and `{:02x}` on non-negative integers.
- `print_line`'s default `hex_style=False` is not modelled. Every call that reaches the body passes `hex_style` (xjis.py:66). The call at xjis.py:74 omits it, but that call raises `TypeError` while binding its arguments, so the default is never used.
- ScanBytes: the exact reconstruction is stated under the condition that the input has no 0x00 byte. This is a sufficient condition, stronger than "no held byte is 0x00". For all inputs it states only that at most some 0x00 bytes are lost.
- Display, Consume: the written text is a sequence of lines, not a stream. A crash leaves `written` holding the lines printed before it, as the stream would. `Consume` takes `offset` and the printed lines as ghost parameters, which it does not change, only so that its contract can name the loop state.
- Behaviours of the code that a reader might not expect, all modelled as written:
  - The code never prints a final partial line: it raises `TypeError` (xjis.py:74).
  - An input whose last byte is reached alone and decodes on its own crashes with `IndexError` (xjis.py:57 and xjis.py:59). This is well-formed input: every ASCII input of odd length crashes this way. A final byte that does not decode goes to the `except` branch and does not crash.
  - The offset field is padded with spaces, never with zeros (xjis.py:35-36).
  - Whether a byte is held is decided by the truthiness of `next_byte` (xjis.py:69), not by a separate presence flag. `Corrected` tests presence instead.

## Findings

| source | as written | input that shows it | evidently intended | confidence | as-written member | corrected member |
|---|---|---|---|---|---|---|
| xjis.py:56-59 | After a one-byte final window decodes, `data[i+1]` is read past the end: `IndexError` | the one byte `A` (0x41); more generally, every ASCII input of odd length, such as `ABC` (Findings.OddAsciiInputCrashes) | the last byte is consumed and the line printed | not executed | Findings.FinalSingleByteCrashes | ScanProperties.CorrectedScanIsComplete |
| xjis.py:73-74 | `print_line(line_bytes, line_chars, outstream)` passes the bytes as the offset and omits `outstream`: `TypeError` whenever 1 to 15 bytes remain | the one byte 0xFF; more generally, an input without 0x00 whose length is not a multiple of 16 never completes: it ends in `IndexError` or `TypeError` (ScanProperties.UnalignedInputCrashes) | the partial last line is printed at its offset | not executed | Findings.LeftoverCallCrashes | ScanProperties.CorrectedScanIsComplete |
| xjis.py:69 | `if next_byte:` is false for a held byte 0x00, so that byte is never printed. Every later line's offset label is then less than the input position of its first byte, by one for each held 0x00 dropped before it. | 0xFF, fifteen 0x41, 0x00 | the held byte opens the next line whatever its value | not executed | Findings.HeldZeroIsDropped | ScanProperties.CorrectedScanIsComplete |
