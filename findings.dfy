// Three defects of `display` (xjis.py:41-74), each shown on a concrete input
// against the corrected loop.
//
// The inputs use only bytes on which Shift JIS agrees with ASCII (0x00-0x7F,
// decoded one char per byte) and the byte 0xFF, which is not valid in Shift JIS;
// `AsciiDecode` and `IsControl` stand in for the codec and for the `C*` category
// test on exactly those bytes and chars.

module Findings {
  import opened Common
  import opened LineFormat
  import opened ScanEngine
  import opened ScanProperties

  /** A stand-in codec: it decodes one- and two-byte windows of ASCII bytes one char
      per byte and rejects every other window. The findings use only the bytes
      0x00-0x7F and 0xFF, where it agrees with Shift JIS. */
  function AsciiDecode(w: seq<byte>): Option<seq<char>>
  {
    if |w| == 1 && w[0] < 0x80 then Some([w[0] as char])
    else if |w| == 2 && w[0] < 0x80 && w[1] < 0x80 then Some([w[0] as char, w[1] as char])
    else None
  }

  /** General category `Cc` on ASCII: the C0 controls and DEL. */
  predicate IsControl(c: char)
  {
    c as int < 0x20 || c as int == 0x7f
  }

  /** Finding 1, xjis.py:56-59. The input `A` (one byte) decodes as a one-byte
      window, after which `data[i+1]` is read past the end: `IndexError`, nothing
      printed. The corrected loop prints the line `0 │ 41 │ A`. */
  lemma FinalSingleByteCrashes()
    ensures Scan([0x41], AsciiDecode, IsControl) == Outcome([], IndexError(1))
    ensures ScanCorrected([0x41], AsciiDecode, IsControl)
      == Outcome([LineRecord(0, [0x41], ['A'])], Completed)
  {
    var data: seq<byte> := [0x41];
    assert Window(data, 0) == [0x41];
    assert AsciiDecode([0x41]) == Some(['A']);
    assert !IsControl('A');
    assert Shown(['A'], IsControl) == ['A'];
    var t := ScanState(1, 0, [0x41], ['A'], None, []);
    assert Step(data, AsciiDecode, IsControl, Corrected, Start) == Next(t);
    RunStep(data, AsciiDecode, IsControl, Corrected, Start, t);
  }

  /** From a state with an odd number of ASCII bytes left, every window is a decodable
      pair until the last byte, which decodes on its own: `IndexError` at `len(data)`. */
  lemma {:induction false} AsciiRunCrashes(data: seq<byte>, s: ScanState)
    requires forall k :: 0 <= k < |data| ==> data[k] < 0x80
    requires s.i < |data| && (|data| - s.i) % 2 == 1
    ensures Run(data, AsciiDecode, IsControl, AsWritten, s).status == IndexError(|data|)
    decreases |data| - s.i
  {
    if s.i + 1 == |data| {
      assert Window(data, s.i) == [data[s.i]];
    } else {
      assert Window(data, s.i) == [data[s.i], data[s.i + 1]];
      var t := Step(data, AsciiDecode, IsControl, AsWritten, s).state;
      AsciiRunCrashes(data, t);
    }
  }

  /** Finding 1 in general: every ASCII input of odd length, well-formed as it is,
      ends in `IndexError` at `len(data)`; `ABC` is one. */
  lemma OddAsciiInputCrashes(data: seq<byte>)
    requires forall k :: 0 <= k < |data| ==> data[k] < 0x80
    requires |data| % 2 == 1
    ensures Scan(data, AsciiDecode, IsControl).status == IndexError(|data|)
  {
    AsciiRunCrashes(data, Start);
  }

  /** Finding 2, xjis.py:73-74. The input 0xFF leaves one byte pending after the
      loop, and the call `print_line(line_bytes, line_chars, outstream)` lacks an
      argument: `TypeError`, nothing printed. The corrected loop prints the line
      `0 │ ff │ .`. */
  lemma LeftoverCallCrashes()
    ensures Scan([0xFF], AsciiDecode, IsControl) == Outcome([], TypeError([0xFF], ['.']))
    ensures ScanCorrected([0xFF], AsciiDecode, IsControl)
      == Outcome([LineRecord(0, [0xFF], ['.'])], Completed)
  {
    var data: seq<byte> := [0xFF];
    assert Window(data, 0) == [0xFF];
    var t := ScanState(1, 0, [0xFF], ['.'], None, []);
    forall mode: Mode
      ensures Run(data, AsciiDecode, IsControl, mode, Start) == Run(data, AsciiDecode, IsControl, mode, t)
    {
      assert Step(data, AsciiDecode, IsControl, mode, Start) == Next(t);
      RunStep(data, AsciiDecode, IsControl, mode, Start, t);
    }
  }

  /** The 17-byte input of finding 3: 0xFF, fifteen `A`, then 0x00. */
  function HeldZeroInput(): (data: seq<byte>)
    ensures |data| == 17
  {
    [0xFF] + seq(15, _ => 0x41) + [0x00]
  }

  /** The state after the first `k` decoded `AA` pairs that follow the 0xFF. */
  function PairsRead(k: nat): ScanState
    requires k <= 7
  {
    ScanState(1 + 2 * k, 0, HeldZeroInput()[..1 + 2 * k], ['.'] + seq(2 * k, _ => 'A'), None, [])
  }

  lemma {:induction false} PairsStep(k: nat, mode: Mode)
    requires k < 7
    ensures Run(HeldZeroInput(), AsciiDecode, IsControl, mode, PairsRead(k))
      == Run(HeldZeroInput(), AsciiDecode, IsControl, mode, PairsRead(k + 1))
  {
    var data := HeldZeroInput();
    var s := PairsRead(k);
    var i := 1 + 2 * k;
    assert data[i] == 0x41 && data[i + 1] == 0x41;
    assert Window(data, i) == [0x41, 0x41];
    assert Shown(['A', 'A'], IsControl) == ['A', 'A'];
    assert data[..i + 2] == data[..i] + [0x41, 0x41];
    assert ['.'] + seq(2 * k + 2, _ => 'A') == ['.'] + seq(2 * k, _ => 'A') + ['A', 'A'];
    RunStep(data, AsciiDecode, IsControl, mode, s, PairsRead(k + 1));
  }

  lemma {:induction false} PairsRun(k: nat, mode: Mode)
    requires k <= 7
    ensures Run(HeldZeroInput(), AsciiDecode, IsControl, mode, PairsRead(k))
      == Run(HeldZeroInput(), AsciiDecode, IsControl, mode, PairsRead(7))
    decreases 7 - k
  {
    if k < 7 {
      PairsStep(k, mode);
      PairsRun(k + 1, mode);
    }
  }

  /** The chars of the one full line of the held-zero input. */
  function HeldZeroLineChars(): seq<char>
  {
    ['.'] + seq(15, _ => 'A') + ['.']
  }

  /** The state after the pair `A`,0x00: one full line printed, the 0x00 seeding
      the next line only in the corrected mode. */
  function HeldZeroEnd(mode: Mode): ScanState
  {
    ScanState(17, 16, if mode == Corrected then [0x00] else [], [],
              if mode == Corrected then None else Some(0),
              [LineRecord(0, HeldZeroInput()[..16], HeldZeroLineChars())])
  }

  lemma HeldZeroFirstStep(mode: Mode)
    ensures Run(HeldZeroInput(), AsciiDecode, IsControl, mode, Start)
      == Run(HeldZeroInput(), AsciiDecode, IsControl, mode, PairsRead(0))
  {
    var data := HeldZeroInput();
    assert data[0] == 0xFF && data[1] == 0x41;
    assert Window(data, 0) == [0xFF, 0x41];
    assert data[..1] == [0xFF];
    assert Step(data, AsciiDecode, IsControl, mode, Start) == Next(PairsRead(0));
    RunStep(data, AsciiDecode, IsControl, mode, Start, PairsRead(0));
  }

  lemma HeldZeroLastStep(mode: Mode)
    ensures Run(HeldZeroInput(), AsciiDecode, IsControl, mode, PairsRead(7))
      == Run(HeldZeroInput(), AsciiDecode, IsControl, mode, HeldZeroEnd(mode))
  {
    var data := HeldZeroInput();
    assert data[15] == 0x41 && data[16] == 0x00;
    assert Window(data, 15) == [0x41, 0x00];
    assert AsciiDecode([0x41, 0x00]) == Some(['A', 0 as char]);
    assert !IsControl('A') && IsControl(0 as char);
    assert Shown(['A', 0 as char], IsControl) == ['A', '.'];
    assert data[..16] == data[..15] + [0x41];
    assert HeldZeroLineChars() == ['.'] + seq(14, _ => 'A') + ['A', '.'];
    var s := PairsRead(7);
    assert Step(data, AsciiDecode, IsControl, mode, s) == Next(HeldZeroEnd(mode));
    RunStep(data, AsciiDecode, IsControl, mode, s, HeldZeroEnd(mode));
  }

  lemma HeldZeroRuns(mode: Mode)
    ensures Run(HeldZeroInput(), AsciiDecode, IsControl, mode, Start)
      == if mode == Corrected
         then Outcome([LineRecord(0, HeldZeroInput()[..16], HeldZeroLineChars()), LineRecord(16, [0x00], [])], Completed)
         else Outcome([LineRecord(0, HeldZeroInput()[..16], HeldZeroLineChars())], Completed)
  {
    HeldZeroFirstStep(mode);
    PairsRun(0, mode);
    HeldZeroLastStep(mode);
  }

  /** Finding 3, xjis.py:69. On 0xFF, fifteen `A`, 0x00 the pair `A`,0x00 straddles
      the line boundary, so 0x00 is held, and `if next_byte:` is false for it: the
      run completes normally having printed 16 of the 17 bytes. The corrected loop
      prints the 0x00 as the first byte of a second line. */
  lemma HeldZeroIsDropped()
    ensures Scan(HeldZeroInput(), AsciiDecode, IsControl)
      == Outcome([LineRecord(0, HeldZeroInput()[..16], HeldZeroLineChars())], Completed)
    ensures AllBytes(Scan(HeldZeroInput(), AsciiDecode, IsControl)) != HeldZeroInput()
    ensures ScanCorrected(HeldZeroInput(), AsciiDecode, IsControl)
      == Outcome([LineRecord(0, HeldZeroInput()[..16], HeldZeroLineChars()), LineRecord(16, [0x00], [])], Completed)
  {
    var data := HeldZeroInput();
    var line := LineRecord(0, data[..16], HeldZeroLineChars());
    HeldZeroRuns(AsWritten);
    HeldZeroRuns(Corrected);
    FlattenSnoc([], line);
    assert [line] == [] + [line];
    assert |AllBytes(Outcome([line], Completed))| == 16;
  }
}
