// The decode-and-pack loop of `display` (xjis.py:41-74).
//
// The loop is specified by a step function over an explicit scan state (cursor,
// offset, the current line's bytes and chars, the held byte, the lines flushed so
// far) and a run function that iterates it; the imperative method `Display` is
// proved to compute exactly that run. The Shift JIS codec and the Unicode
// category lookup are parameters of the model.
//
// The step function is written for two modes: `AsWritten` is what xjis.py does,
// defects included; `Corrected` is the evidently intended behaviour (a held byte
// of value 0 is kept, a one-byte final window that decodes is consumed, the final
// partial line is printed). `Display` models the code as written.

module ScanEngine {
  import opened Common
  import opened LineFormat

  /** `LINE_LEN` (xjis.py:29): raw bytes per display line. */
  const LineLen: nat := 16

  /** `data[i:i+2].decode('shift_jis')`: the chars the window decodes to, or `None`
      where Python raises `UnicodeDecodeError`. */
  type Decoder = seq<byte> -> Option<seq<char>>

  /** `unicodedata.category(ch)[0] == 'C'`. */
  type IsOther = char -> bool

  datatype Mode = AsWritten | Corrected

  /** How a run ends: normally, with the `IndexError` of reading `data[index]`, or
      with the `TypeError` of the misargumented final `print_line` call, which
      happens while these bytes and chars are still pending. */
  datatype Status =
    | Completed
    | IndexError(index: nat)
    | TypeError(pendingBytes: seq<byte>, pendingChars: seq<char>)

  /** The lines printed, in order, and how the run ended. */
  datatype Outcome = Outcome(lines: seq<LineRecord>, status: Status)

  /** The loop's local variables: `i`, `offset`, `line_bytes`, `line_chars`,
      `next_byte`, and the lines already handed to `print_line`. */
  datatype ScanState = ScanState(
    i: nat,
    offset: nat,
    lineBytes: seq<byte>,
    lineChars: seq<char>,
    nextByte: Option<byte>,
    lines: seq<LineRecord>)

  datatype StepResult = Next(state: ScanState) | Crash(index: nat)

  const Start: ScanState := ScanState(0, 0, [], [], None, [])

  /** `data[i:i+2]`: two bytes, or one at the end of the input. */
  function Window(data: seq<byte>, i: nat): (w: seq<byte>)
    requires i < |data|
    ensures |w| == (if i + 1 < |data| then 2 else 1) && w[0] == data[i]
  {
    data[i..if i + 2 <= |data| then i + 2 else |data|]
  }

  /** The decoded chars as displayed: each char of category `C*` becomes `.`. */
  function Shown(chars: seq<char>, isOther: IsOther): (shown: seq<char>)
    ensures |shown| == |chars|
    ensures forall k :: 0 <= k < |chars| && isOther(chars[k]) ==> shown[k] == '.'
    ensures forall k :: 0 <= k < |chars| && !isOther(chars[k]) ==> shown[k] == chars[k]
  {
    seq(|chars|, k requires 0 <= k < |chars| => if isOther(chars[k]) then '.' else chars[k])
  }

  /** Whether the flush re-seeds the next line with the held byte: xjis.py tests
      `if next_byte:`, which is false for a held byte of value 0. */
  predicate Seeds(mode: Mode, held: Option<byte>)
  {
    held.Some? && (mode == Corrected || held.value != 0)
  }

  /** The `try`/`except` block (xjis.py:49-64): decode the window at `i` and
      account for its bytes and chars. */
  function Attempt(data: seq<byte>, decode: Decoder, isOther: IsOther, mode: Mode, s: ScanState): (r: StepResult)
    requires s.i < |data|
    ensures r.Next? ==> r.state.i == s.i + (if decode(Window(data, s.i)).Some? then |Window(data, s.i)| else 1)
  {
    match decode(Window(data, s.i))
    case None =>
      Next(s.(i := s.i + 1, lineBytes := s.lineBytes + [data[s.i]], lineChars := s.lineChars + ['.']))
    case Some(cs) =>
      var chars := s.lineChars + Shown(cs, isOther);
      var bytes := s.lineBytes + [data[s.i]];
      if s.i + 1 == |data| then
        // a one-byte window decoded; xjis.py then reads data[i+1]
        if mode == AsWritten then Crash(s.i + 1)
        else Next(s.(i := s.i + 1, lineBytes := bytes, lineChars := chars))
      else if |bytes| < LineLen then
        Next(s.(i := s.i + 2, lineBytes := bytes + [data[s.i + 1]], lineChars := chars))
      else
        Next(s.(i := s.i + 2, lineBytes := bytes, lineChars := chars, nextByte := Some(data[s.i + 1])))
  }

  /** The flush check (xjis.py:65-72): a full line is printed, the accumulators are
      reset and the held byte, if any, seeds the next line. */
  function Flush(mode: Mode, s: ScanState): (t: ScanState)
    ensures t.i == s.i
    ensures |s.lineBytes| < LineLen ==> t == s
    ensures |s.lineBytes| >= LineLen ==>
      && t.lines == s.lines + [LineRecord(s.offset, s.lineBytes, s.lineChars)]
      && t.offset == s.offset + LineLen
      && t.lineChars == []
      && |t.lineBytes| <= 1
  {
    if |s.lineBytes| >= LineLen then
      var seeded := Seeds(mode, s.nextByte);
      ScanState(
        s.i,
        s.offset + LineLen,
        if seeded then [s.nextByte.value] else [],
        [],
        if seeded then None else s.nextByte,
        s.lines + [LineRecord(s.offset, s.lineBytes, s.lineChars)])
    else s
  }

  /** One iteration of the `while` loop. */
  function Step(data: seq<byte>, decode: Decoder, isOther: IsOther, mode: Mode, s: ScanState): (r: StepResult)
    requires s.i < |data|
    ensures r.Next? ==> s.i < r.state.i <= |data|
  {
    match Attempt(data, decode, isOther, mode, s)
    case Crash(k) => Crash(k)
    case Next(t) => Next(Flush(mode, t))
  }

  /** The loop from state `s` to its end, then the final-remainder handling
      (xjis.py:73-74). */
  function Run(data: seq<byte>, decode: Decoder, isOther: IsOther, mode: Mode, s: ScanState): (o: Outcome)
    requires s.i <= |data|
    ensures |s.lines| <= |o.lines| && o.lines[..|s.lines|] == s.lines
    decreases |data| - s.i
  {
    if s.i < |data| then
      match Step(data, decode, isOther, mode, s)
      case Crash(k) => Outcome(s.lines, IndexError(k))
      case Next(t) => Run(data, decode, isOther, mode, t)
    else if s.lineBytes == [] then
      Outcome(s.lines, Completed)
    else if mode == AsWritten then
      Outcome(s.lines, TypeError(s.lineBytes, s.lineChars))
    else
      Outcome(s.lines + [LineRecord(s.offset, s.lineBytes, s.lineChars)], Completed)
  }

  /** What `display` does with the input `data`. */
  function Scan(data: seq<byte>, decode: Decoder, isOther: IsOther): (o: Outcome)
  {
    Run(data, decode, isOther, AsWritten, Start)
  }

  /** What `display` evidently means to do with `data`. */
  function ScanCorrected(data: seq<byte>, decode: Decoder, isOther: IsOther): (o: Outcome)
  {
    Run(data, decode, isOther, Corrected, Start)
  }

  /** The text written for the given lines. */
  function Rendered(lines: seq<LineRecord>, hexStyle: bool): (text: seq<string>)
    ensures |text| == |lines|
  {
    seq(|lines|, k requires 0 <= k < |lines| => PrintLine(lines[k].offset, lines[k].bytes, lines[k].chars, hexStyle))
  }

  lemma RunStep(data: seq<byte>, decode: Decoder, isOther: IsOther, mode: Mode, s: ScanState, t: ScanState)
    requires s.i < |data| && Step(data, decode, isOther, mode, s) == Next(t)
    ensures Run(data, decode, isOther, mode, s) == Run(data, decode, isOther, mode, t)
  {
  }

  lemma RunAttempt(data: seq<byte>, decode: Decoder, isOther: IsOther, mode: Mode, s: ScanState, a: ScanState)
    requires s.i < |data| && Attempt(data, decode, isOther, mode, s) == Next(a)
    ensures Run(data, decode, isOther, mode, s) == Run(data, decode, isOther, mode, Flush(mode, a))
  {
  }

  lemma RenderedSnoc(lines: seq<LineRecord>, r: LineRecord, hexStyle: bool)
    ensures Rendered(lines + [r], hexStyle) == Rendered(lines, hexStyle) + [PrintLine(r.offset, r.bytes, r.chars, hexStyle)]
  {
  }

  /** The `for ch in chars` loop (xjis.py:51-54): appends the decoded chars in
      order, each replaced by `.` when its category is `C*`. */
  method AppendShown(lineChars: seq<char>, chars: seq<char>, isOther: IsOther) returns (r: seq<char>)
    ensures r == lineChars + Shown(chars, isOther)
  {
    r := lineChars;
    var k := 0;
    while k < |chars|
      invariant k <= |chars|
      invariant r == lineChars + Shown(chars[..k], isOther)
    {
      var ch := chars[k];
      if isOther(ch) {
        ch := '.';
      }
      r := r + [ch];
      k := k + 1;
      assert Shown(chars[..k], isOther) == Shown(chars[..k - 1], isOther) + [ch];
    }
    assert chars[..k] == chars;
  }

  /** The `try`/`except` block (xjis.py:49-64) on the loop's locals: decodes the
      window at `i` and extends the line, or reports that `data[i+1]` was read past
      the end. `offset` and `lines` are untouched by the block; they are passed only
      to name the loop state. */
  method Consume(data: seq<byte>, decode: Decoder, isOther: IsOther,
                 i: nat, lineBytes: seq<byte>, lineChars: seq<char>, nextByte: Option<byte>,
                 ghost offset: nat, ghost lines: seq<LineRecord>)
    returns (crashed: bool, i': nat, lineBytes': seq<byte>, lineChars': seq<char>, nextByte': Option<byte>)
    requires i < |data|
    ensures var r := Attempt(data, decode, isOther, AsWritten, ScanState(i, offset, lineBytes, lineChars, nextByte, lines));
      if crashed then r == Crash(i + 1) && i' == i
      else r == Next(ScanState(i', offset, lineBytes', lineChars', nextByte', lines))
  {
    i', lineBytes', lineChars', nextByte' := i, lineBytes, lineChars, nextByte;
    crashed := false;
    var window := data[i..if i + 2 <= |data| then i + 2 else |data|];
    assert window == Window(data, i);
    var decoded := decode(window);
    if decoded.Some? {
      lineChars' := AppendShown(lineChars', decoded.value, isOther);
      lineBytes' := lineBytes' + [data[i]];
      if i + 1 == |data| {
        // data[i + 1] is out of range
        crashed := true;
        return;
      }
      if |lineBytes'| < LineLen {
        lineBytes' := lineBytes' + [data[i + 1]];
      } else {
        nextByte' := Some(data[i + 1]);
      }
      i' := i + 2;
    } else {
      lineChars' := lineChars' + ['.'];
      lineBytes' := lineBytes' + [data[i]];
      i' := i + 1;
    }
  }

  /** `display` (xjis.py:41-74) on the already-read input `data`: returns the text
      it writes, line by line, and how it ends. */
  method Display(data: seq<byte>, decode: Decoder, isOther: IsOther, hexStyle: bool)
    returns (written: seq<string>, outcome: Outcome)
    ensures outcome == Scan(data, decode, isOther)
    ensures written == Rendered(outcome.lines, hexStyle)
  {
    var i: nat, offset: nat := 0, 0;
    var lineBytes: seq<byte> := [];
    var lineChars: seq<char> := [];
    var nextByte: Option<byte> := None;
    var lines: seq<LineRecord> := [];
    written := [];
    while i < |data|
      invariant i <= |data|
      invariant Run(data, decode, isOther, AsWritten, ScanState(i, offset, lineBytes, lineChars, nextByte, lines))
        == Scan(data, decode, isOther)
      invariant written == Rendered(lines, hexStyle)
      decreases |data| - i
    {
      ghost var s := ScanState(i, offset, lineBytes, lineChars, nextByte, lines);
      var crashed;
      crashed, i, lineBytes, lineChars, nextByte :=
        Consume(data, decode, isOther, i, lineBytes, lineChars, nextByte, offset, lines);
      if crashed {
        outcome := Outcome(lines, IndexError(i + 1));
        return;
      }
      ghost var a := ScanState(i, offset, lineBytes, lineChars, nextByte, lines);
      if |lineBytes| >= LineLen {
        RenderedSnoc(lines, LineRecord(offset, lineBytes, lineChars), hexStyle);
        written := written + [PrintLine(offset, lineBytes, lineChars, hexStyle)];
        lines := lines + [LineRecord(offset, lineBytes, lineChars)];
        lineBytes := [];
        lineChars := [];
        if nextByte.Some? && nextByte.value != 0 {
          lineBytes := lineBytes + [nextByte.value];
          nextByte := None;
        }
        offset := offset + LineLen;
      }
      assert Flush(AsWritten, a) == ScanState(i, offset, lineBytes, lineChars, nextByte, lines);
      RunAttempt(data, decode, isOther, AsWritten, s, a);
    }
    if lineBytes != [] {
      // print_line(line_bytes, line_chars, outstream) lacks an argument
      outcome := Outcome(lines, TypeError(lineBytes, lineChars));
    } else {
      outcome := Outcome(lines, Completed);
    }
  }
}
