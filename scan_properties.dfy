// What the decode-and-pack loop of xjis.py guarantees, proved about the step and
// run functions of ScanEngine: the per-iteration accounting, the fixed line width,
// the offsets, the byte-boundary carry, completeness of the bytes, order and
// classification of the chars, and how the run ends.

module ScanProperties {
  import opened Common
  import opened LineFormat
  import opened ScanEngine

  // ---------------------------------------------------------------------------
  // Views of the printed lines

  /** The byte columns of `lines`, concatenated in order. */
  function Flatten(lines: seq<LineRecord>): seq<byte>
    decreases |lines|
  {
    if lines == [] then [] else Flatten(lines[..|lines| - 1]) + lines[|lines| - 1].bytes
  }

  /** The text columns of `lines`, concatenated in order. */
  function FlattenChars(lines: seq<LineRecord>): seq<char>
    decreases |lines|
  {
    if lines == [] then [] else FlattenChars(lines[..|lines| - 1]) + lines[|lines| - 1].chars
  }

  lemma FlattenSnoc(lines: seq<LineRecord>, r: LineRecord)
    ensures Flatten(lines + [r]) == Flatten(lines) + r.bytes
    ensures FlattenChars(lines + [r]) == FlattenChars(lines) + r.chars
  {
    assert (lines + [r])[..|lines|] == lines;
  }

  /** Every byte of the run's output: the printed lines, then the bytes still
      pending when the final call fails. */
  function AllBytes(o: Outcome): seq<byte>
  {
    Flatten(o.lines) + if o.status.TypeError? then o.status.pendingBytes else []
  }

  function AllChars(o: Outcome): seq<char>
  {
    FlattenChars(o.lines) + if o.status.TypeError? then o.status.pendingChars else []
  }

  // ---------------------------------------------------------------------------
  // Reference definitions

  /** The text column of the whole input, ignoring line boundaries: decode the
      window at the front; on success show its chars and drop its bytes, on
      failure show one `.` and drop one byte. */
  function Transcribe(data: seq<byte>, decode: Decoder, isOther: IsOther): seq<char>
    decreases |data|
  {
    if data == [] then []
    else
      var w := Window(data, 0);
      match decode(w)
      case Some(cs) => Shown(cs, isOther) + Transcribe(data[|w|..], decode, isOther)
      case None => ['.'] + Transcribe(data[1..], decode, isOther)
  }

  /** How many bytes the unit at `i` spans: the decoded window, or one byte. */
  function UnitLen(data: seq<byte>, decode: Decoder, i: nat): (n: nat)
    requires i < |data|
    ensures 1 <= n && i + n <= |data|
  {
    if decode(Window(data, i)).Some? then |Window(data, i)| else 1
  }

  /** What the unit at `i` shows: its decoded chars as displayed, or one `.`. */
  function UnitChars(data: seq<byte>, decode: Decoder, isOther: IsOther, i: nat): seq<char>
    requires i < |data|
  {
    match decode(Window(data, i))
    case Some(cs) => Shown(cs, isOther)
    case None => ['.']
  }

  lemma TranscribeAt(data: seq<byte>, decode: Decoder, isOther: IsOther, i: nat)
    requires i < |data|
    ensures Transcribe(data[i..], decode, isOther)
      == UnitChars(data, decode, isOther, i) + Transcribe(data[i + UnitLen(data, decode, i)..], decode, isOther)
  {
    var rest := data[i..];
    assert Window(rest, 0) == Window(data, i);
    assert rest[|Window(data, i)|..] == data[i + |Window(data, i)|..];
    assert rest[1..] == data[i + 1..];
  }

  /** `kept` is `orig` with some of its 0x00 bytes deleted and nothing else
      changed. */
  predicate DropsOnlyZeros(kept: seq<byte>, orig: seq<byte>)
    decreases |orig|
  {
    if orig == [] then kept == []
    else
      || (kept != [] && kept[|kept| - 1] == orig[|orig| - 1]
          && DropsOnlyZeros(kept[..|kept| - 1], orig[..|orig| - 1]))
      || (orig[|orig| - 1] == 0 && DropsOnlyZeros(kept, orig[..|orig| - 1]))
  }

  lemma DropsOnlyZerosKeep(kept: seq<byte>, orig: seq<byte>, b: byte)
    requires DropsOnlyZeros(kept, orig)
    ensures DropsOnlyZeros(kept + [b], orig + [b])
  {
    assert (kept + [b])[..|kept|] == kept;
    assert (orig + [b])[..|orig|] == orig;
  }

  lemma DropsOnlyZerosDrop(kept: seq<byte>, orig: seq<byte>)
    requires DropsOnlyZeros(kept, orig)
    ensures DropsOnlyZeros(kept, orig + [0])
  {
    assert (orig + [0])[..|orig|] == orig;
  }

  /** With no 0x00 byte to delete, nothing is deleted. */
  lemma {:induction false} DropsOnlyZerosExact(kept: seq<byte>, orig: seq<byte>)
    requires DropsOnlyZeros(kept, orig) && 0 !in orig
    ensures kept == orig
    decreases |orig|
  {
    if orig != [] {
      var o := orig[..|orig| - 1];
      assert orig[|orig| - 1] in orig;
      assert forall b :: b in o ==> b in orig;
      DropsOnlyZerosExact(kept[..|kept| - 1], o);
      assert kept == kept[..|kept| - 1] + [kept[|kept| - 1]];
      assert orig == o + [orig[|orig| - 1]];
    }
  }

  // ---------------------------------------------------------------------------
  // Loop invariants

  /** Line shape at the head of the loop: the cursor is in range, the current line
      is not full, every printed line is full and sits at its offset, and no byte is
      held over (except the dead 0x00 that `if next_byte:` leaves behind). */
  ghost predicate ShapeInv(data: seq<byte>, mode: Mode, s: ScanState)
  {
    && s.i <= |data|
    && |s.lineBytes| < LineLen
    && s.offset == LineLen * |s.lines|
    && (forall k :: 0 <= k < |s.lines| ==> |s.lines[k].bytes| == LineLen && s.lines[k].offset == LineLen * k)
    && (s.nextByte == None || (mode == AsWritten && s.nextByte == Some(0)))
    && (s.lineBytes == [] ==> s.lineChars == [])
  }

  /** The bytes printed or pending are the bytes read so far, less some 0x00
      bytes; exactly those bytes in the corrected mode. */
  ghost predicate BytesInv(data: seq<byte>, mode: Mode, s: ScanState)
    requires s.i <= |data|
  {
    && DropsOnlyZeros(Flatten(s.lines) + s.lineBytes, data[..s.i])
    && (mode == Corrected ==> Flatten(s.lines) + s.lineBytes == data[..s.i])
  }

  /** The chars printed or pending, followed by the transcription of the unread
      input, are the transcription of the whole input. */
  ghost predicate CharsInv(data: seq<byte>, decode: Decoder, isOther: IsOther, s: ScanState)
    requires s.i <= |data|
  {
    FlattenChars(s.lines) + s.lineChars + Transcribe(data[s.i..], decode, isOther)
      == Transcribe(data, decode, isOther)
  }

  ghost predicate Inv(data: seq<byte>, decode: Decoder, isOther: IsOther, mode: Mode, s: ScanState)
  {
    ShapeInv(data, mode, s) && BytesInv(data, mode, s) && CharsInv(data, decode, isOther, s)
  }

  lemma StartInv(data: seq<byte>, decode: Decoder, isOther: IsOther, mode: Mode)
    ensures Inv(data, decode, isOther, mode, Start)
  {
    assert data[..0] == [];
    assert data[0..] == data;
  }

  // ---------------------------------------------------------------------------
  // One iteration

  /** Inside an iteration the current line never grows past `LINE_LEN`; it reaches
      `LINE_LEN` exactly when the byte after a decoded pair's first byte is held. */
  lemma AttemptNeverOverfills(data: seq<byte>, decode: Decoder, isOther: IsOther, mode: Mode, s: ScanState)
    requires ShapeInv(data, mode, s) && s.i < |data|
    ensures var r := Attempt(data, decode, isOther, mode, s);
      r.Next? ==>
        && |r.state.lineBytes| <= LineLen
        && r.state.lines == s.lines && r.state.offset == s.offset
        && (r.state.nextByte != s.nextByte ==>
              |r.state.lineBytes| == LineLen && r.state.nextByte == Some(data[s.i + 1]))
  {
  }

  /** The flush adds the printed line's bytes to the output and seeds the next line
      with the held byte when the truthiness test lets it through. */
  lemma FlushBytes(mode: Mode, a: ScanState)
    ensures var t := Flush(mode, a);
      Flatten(t.lines) + t.lineBytes ==
        Flatten(a.lines) + a.lineBytes
          + (if |a.lineBytes| >= LineLen && Seeds(mode, a.nextByte) then [a.nextByte.value] else [])
    ensures var t := Flush(mode, a);
      FlattenChars(t.lines) + t.lineChars == FlattenChars(a.lines) + a.lineChars
  {
    if |a.lineBytes| >= LineLen {
      FlattenSnoc(a.lines, LineRecord(a.offset, a.lineBytes, a.lineChars));
    }
  }

  lemma StepKeepsShape(data: seq<byte>, decode: Decoder, isOther: IsOther, mode: Mode, s: ScanState)
    requires ShapeInv(data, mode, s) && s.i < |data|
    requires Step(data, decode, isOther, mode, s).Next?
    ensures ShapeInv(data, mode, Step(data, decode, isOther, mode, s).state)
  {
    AttemptNeverOverfills(data, decode, isOther, mode, s);
    var a := Attempt(data, decode, isOther, mode, s).state;
    var t := Flush(mode, a);
    if |a.lineBytes| >= LineLen {
      assert forall k :: 0 <= k < |s.lines| ==> t.lines[k] == s.lines[k];
    }
  }

  /** The three ways an iteration that does not crash accounts for bytes: one
      byte onto the line; a decoded pair onto the line; or a decoded pair whose
      first byte fills the line and whose second byte is held. */
  lemma AttemptCases(data: seq<byte>, decode: Decoder, isOther: IsOther, mode: Mode, s: ScanState)
    requires ShapeInv(data, mode, s) && s.i < |data|
    requires Attempt(data, decode, isOther, mode, s).Next?
    ensures var a := Attempt(data, decode, isOther, mode, s).state; var i := s.i;
      && a.lines == s.lines && a.offset == s.offset
      && (|| (a.i == i + 1 && a.lineBytes == s.lineBytes + [data[i]] && a.nextByte == s.nextByte)
          || (a.i == i + 2 && a.lineBytes == s.lineBytes + [data[i], data[i + 1]] && a.nextByte == s.nextByte)
          || (a.i == i + 2 && a.lineBytes == s.lineBytes + [data[i]] && |a.lineBytes| == LineLen
              && a.nextByte == Some(data[i + 1])))
  {
  }

  /** Bytes printed or pending before an iteration. */
  function Accounted(s: ScanState): seq<byte>
  {
    Flatten(s.lines) + s.lineBytes
  }

  /** One byte moved onto the line; a held byte can only be the dead 0x00. */
  lemma FlushKeepsBytesSingle(data: seq<byte>, mode: Mode, s: ScanState, a: ScanState)
    requires ShapeInv(data, mode, s) && BytesInv(data, mode, s) && s.i < |data|
    requires a.lines == s.lines && a.i == s.i + 1
    requires a.lineBytes == s.lineBytes + [data[s.i]] && a.nextByte == s.nextByte
    ensures BytesInv(data, mode, Flush(mode, a))
  {
    FlushBytes(mode, a);
    assert Accounted(Flush(mode, a)) == Accounted(s) + [data[s.i]];
    assert data[..s.i + 1] == data[..s.i] + [data[s.i]];
    DropsOnlyZerosKeep(Accounted(s), data[..s.i], data[s.i]);
  }

  /** A decoded pair moved onto the line. */
  lemma FlushKeepsBytesPair(data: seq<byte>, mode: Mode, s: ScanState, a: ScanState)
    requires ShapeInv(data, mode, s) && BytesInv(data, mode, s) && s.i + 1 < |data|
    requires a.lines == s.lines && a.i == s.i + 2
    requires a.lineBytes == s.lineBytes + [data[s.i], data[s.i + 1]] && a.nextByte == s.nextByte
    ensures BytesInv(data, mode, Flush(mode, a))
  {
    var i := s.i;
    FlushBytes(mode, a);
    assert Accounted(Flush(mode, a)) == Accounted(s) + [data[i]] + [data[i + 1]];
    assert data[..i + 2] == data[..i] + [data[i]] + [data[i + 1]];
    DropsOnlyZerosKeep(Accounted(s), data[..i], data[i]);
    DropsOnlyZerosKeep(Accounted(s) + [data[i]], data[..i] + [data[i]], data[i + 1]);
  }

  /** A decoded pair straddling the line boundary: its first byte completes the
      line, its second byte opens the next one, unless, as written, it is the 0x00
      that `if next_byte:` drops. */
  lemma FlushKeepsBytesSplit(data: seq<byte>, mode: Mode, s: ScanState, a: ScanState)
    requires ShapeInv(data, mode, s) && BytesInv(data, mode, s) && s.i + 1 < |data|
    requires a.lines == s.lines && a.i == s.i + 2
    requires a.lineBytes == s.lineBytes + [data[s.i]] && |a.lineBytes| == LineLen
    requires a.nextByte == Some(data[s.i + 1])
    ensures BytesInv(data, mode, Flush(mode, a))
  {
    var i := s.i;
    FlushBytes(mode, a);
    assert data[..i + 2] == data[..i] + [data[i]] + [data[i + 1]];
    DropsOnlyZerosKeep(Accounted(s), data[..i], data[i]);
    if Seeds(mode, a.nextByte) {
      assert Accounted(Flush(mode, a)) == Accounted(s) + [data[i]] + [data[i + 1]];
      DropsOnlyZerosKeep(Accounted(s) + [data[i]], data[..i] + [data[i]], data[i + 1]);
    } else {
      assert Accounted(Flush(mode, a)) == Accounted(s) + [data[i]];
      DropsOnlyZerosDrop(Accounted(s) + [data[i]], data[..i] + [data[i]]);
    }
  }

  lemma StepKeepsBytes(data: seq<byte>, decode: Decoder, isOther: IsOther, mode: Mode, s: ScanState)
    requires ShapeInv(data, mode, s) && BytesInv(data, mode, s) && s.i < |data|
    requires Step(data, decode, isOther, mode, s).Next?
    ensures BytesInv(data, mode, Step(data, decode, isOther, mode, s).state)
  {
    var a := Attempt(data, decode, isOther, mode, s).state;
    AttemptCases(data, decode, isOther, mode, s);
    if a.i == s.i + 1 {
      FlushKeepsBytesSingle(data, mode, s, a);
    } else if a.lineBytes == s.lineBytes + [data[s.i], data[s.i + 1]] {
      FlushKeepsBytesPair(data, mode, s, a);
    } else {
      FlushKeepsBytesSplit(data, mode, s, a);
    }
  }

  /** An iteration that does not crash moves the cursor over one unit and adds
      that unit's chars to the current line. */
  lemma AttemptChars(data: seq<byte>, decode: Decoder, isOther: IsOther, mode: Mode, s: ScanState)
    requires s.i < |data|
    requires Attempt(data, decode, isOther, mode, s).Next?
    ensures var a := Attempt(data, decode, isOther, mode, s).state;
      && a.lines == s.lines
      && a.i == s.i + UnitLen(data, decode, s.i)
      && a.lineChars == s.lineChars + UnitChars(data, decode, isOther, s.i)
  {
  }

  /** The char accounting of one iteration, given that its attempt moved over one
      unit and added that unit's chars. */
  lemma FlushKeepsChars(data: seq<byte>, decode: Decoder, isOther: IsOther, mode: Mode, s: ScanState, a: ScanState)
    requires s.i < |data| && CharsInv(data, decode, isOther, s)
    requires a.lines == s.lines
    requires a.i == s.i + UnitLen(data, decode, s.i)
    requires a.lineChars == s.lineChars + UnitChars(data, decode, isOther, s.i)
    ensures Flush(mode, a).i == a.i
    ensures CharsInv(data, decode, isOther, Flush(mode, a))
  {
    var t := Flush(mode, a);
    FlushBytes(mode, a);
    TranscribeAt(data, decode, isOther, s.i);
    Regroup(FlattenChars(s.lines), s.lineChars, UnitChars(data, decode, isOther, s.i),
            Transcribe(data[t.i..], decode, isOther), Transcribe(data[s.i..], decode, isOther),
            Transcribe(data, decode, isOther));
  }

  lemma Regroup<T>(done: seq<T>, line: seq<T>, unit: seq<T>, later: seq<T>, rest: seq<T>, whole: seq<T>)
    requires done + line + rest == whole && rest == unit + later
    ensures done + (line + unit) + later == whole
  {
  }

  lemma StepKeepsChars(data: seq<byte>, decode: Decoder, isOther: IsOther, mode: Mode, s: ScanState)
    requires ShapeInv(data, mode, s) && CharsInv(data, decode, isOther, s) && s.i < |data|
    requires Step(data, decode, isOther, mode, s).Next?
    ensures CharsInv(data, decode, isOther, Step(data, decode, isOther, mode, s).state)
  {
    AttemptChars(data, decode, isOther, mode, s);
    FlushKeepsChars(data, decode, isOther, mode, s, Attempt(data, decode, isOther, mode, s).state);
  }

  /** Each iteration consumes one unit — the window it decoded (two bytes, or the
      one byte left), or, when decoding fails, exactly one byte shown as exactly one
      `.` — so the cursor strictly increases. Line boundaries do not matter: the
      chars of the printed and current lines grow by exactly that unit's chars. The
      as-written loop crashes exactly when a one-byte window decodes. */
  lemma StepConsumes(data: seq<byte>, decode: Decoder, isOther: IsOther, mode: Mode, s: ScanState)
    requires ShapeInv(data, mode, s) && s.i < |data|
    ensures var r := Step(data, decode, isOther, mode, s);
      var w := Window(data, s.i);
      && (r.Crash? <==> mode == AsWritten && |w| == 1 && decode(w).Some?)
      && (decode(w).None? ==> UnitLen(data, decode, s.i) == 1 && UnitChars(data, decode, isOther, s.i) == ['.'])
      && (decode(w).Some? ==> UnitLen(data, decode, s.i) == |w|)
      && (r.Next? ==>
            && r.state.i == s.i + UnitLen(data, decode, s.i)
            && FlattenChars(r.state.lines) + r.state.lineChars
                 == FlattenChars(s.lines) + s.lineChars + UnitChars(data, decode, isOther, s.i))
  {
    var r := Attempt(data, decode, isOther, mode, s);
    if r.Next? {
      AttemptChars(data, decode, isOther, mode, s);
      FlushBytes(mode, r.state);
    }
  }

  /** When the first byte of a decoded pair completes the line, the pair's chars
      stay on the completed line, and the pair's second byte opens the next line,
      which has no chars yet — unless, as written, that byte is 0x00, which the
      truthiness test drops. */
  lemma StepSplitCarry(data: seq<byte>, decode: Decoder, isOther: IsOther, mode: Mode, s: ScanState)
    requires ShapeInv(data, mode, s) && s.i + 1 < |data|
    requires |s.lineBytes| == LineLen - 1 && decode(data[s.i..s.i + 2]).Some?
    ensures var r := Step(data, decode, isOther, mode, s);
      && r.Next?
      && r.state.i == s.i + 2
      && r.state.lines == s.lines + [LineRecord(s.offset, s.lineBytes + [data[s.i]],
                                                 s.lineChars + Shown(decode(data[s.i..s.i + 2]).value, isOther))]
      && r.state.offset == s.offset + LineLen
      && r.state.lineChars == []
      && r.state.lineBytes == (if mode == Corrected || data[s.i + 1] != 0 then [data[s.i + 1]] else [])
  {
    assert Window(data, s.i) == data[s.i..s.i + 2];
  }

  // ---------------------------------------------------------------------------
  // Whole runs

  /** Shape of a run from a well-formed state: printed lines sit at offsets 0, 16,
      32, …; every line but the last is full, and, as written, every printed line is
      full; the run crashes with `IndexError` only when the final byte is a one-byte
      window that decodes, and with `TypeError` only while 1 to 15 bytes are pending;
      the corrected run always completes. */
  lemma {:induction false} RunShape(data: seq<byte>, decode: Decoder, isOther: IsOther, mode: Mode, s: ScanState)
    requires ShapeInv(data, mode, s)
    ensures var o := Run(data, decode, isOther, mode, s);
      && (forall k :: 0 <= k < |o.lines| ==> o.lines[k].offset == LineLen * k && 1 <= |o.lines[k].bytes| <= LineLen)
      && (forall k :: 0 <= k < |o.lines| - 1 ==> |o.lines[k].bytes| == LineLen)
      && (mode == AsWritten ==> forall k :: 0 <= k < |o.lines| ==> |o.lines[k].bytes| == LineLen)
      && (o.status.IndexError? ==>
            mode == AsWritten && |data| >= 1 && o.status.index == |data| && decode([data[|data| - 1]]).Some?)
      && (o.status.TypeError? ==> mode == AsWritten && 1 <= |o.status.pendingBytes| < LineLen)
      && (mode == Corrected ==> o.status == Completed)
      && |o.lines| >= |s.lines|
    decreases |data| - s.i
  {
    if s.i < |data| {
      match Step(data, decode, isOther, mode, s)
      case Crash(k) =>
        assert Window(data, s.i) == [data[|data| - 1]];
      case Next(t) =>
        StepKeepsShape(data, decode, isOther, mode, s);
        RunShape(data, decode, isOther, mode, t);
    } else if s.lineBytes != [] && mode == Corrected {
      var o := Run(data, decode, isOther, mode, s);
      assert o.lines == s.lines + [LineRecord(s.offset, s.lineBytes, s.lineChars)];
    }
  }

  /** The bytes printed and pending are the input less some held 0x00 bytes, and
      exactly the input in the corrected mode. */
  lemma {:induction false} RunBytes(data: seq<byte>, decode: Decoder, isOther: IsOther, mode: Mode, s: ScanState)
    requires ShapeInv(data, mode, s) && BytesInv(data, mode, s)
    ensures var o := Run(data, decode, isOther, mode, s);
      && (!o.status.IndexError? ==> DropsOnlyZeros(AllBytes(o), data))
      && (mode == Corrected ==> AllBytes(o) == data)
    decreases |data| - s.i
  {
    if s.i < |data| {
      match Step(data, decode, isOther, mode, s)
      case Crash(k) =>
      case Next(t) =>
        StepKeepsShape(data, decode, isOther, mode, s);
        StepKeepsBytes(data, decode, isOther, mode, s);
        RunBytes(data, decode, isOther, mode, t);
    } else {
      assert data[..s.i] == data;
      var o := Run(data, decode, isOther, mode, s);
      if s.lineBytes != [] && mode == Corrected {
        FlattenSnoc(s.lines, LineRecord(s.offset, s.lineBytes, s.lineChars));
      }
      assert AllBytes(o) == Flatten(s.lines) + s.lineBytes;
    }
  }

  /** The chars printed and pending are the line-independent transcription of the
      input, unless the run crashed with `IndexError`. */
  lemma {:induction false} RunChars(data: seq<byte>, decode: Decoder, isOther: IsOther, mode: Mode, s: ScanState)
    requires ShapeInv(data, mode, s) && CharsInv(data, decode, isOther, s)
    ensures var o := Run(data, decode, isOther, mode, s);
      !o.status.IndexError? ==> AllChars(o) == Transcribe(data, decode, isOther)
    decreases |data| - s.i
  {
    if s.i < |data| {
      match Step(data, decode, isOther, mode, s)
      case Crash(k) =>
      case Next(t) =>
        StepKeepsShape(data, decode, isOther, mode, s);
        StepKeepsChars(data, decode, isOther, mode, s);
        RunChars(data, decode, isOther, mode, t);
    } else {
      assert data[s.i..] == [];
      var o := Run(data, decode, isOther, mode, s);
      if s.lineBytes != [] && mode == Corrected {
        FlattenSnoc(s.lines, LineRecord(s.offset, s.lineBytes, s.lineChars));
      }
      assert AllChars(o) == FlattenChars(s.lines) + s.lineChars;
    }
  }

  // ---------------------------------------------------------------------------
  // display as written

  /** Every line `display` prints has exactly 16 bytes and line k is printed at
      offset 16·k; empty input prints nothing and completes; an `IndexError` is
      raised only by a final one-byte window that decodes; a `TypeError` is raised
      only while 1 to 15 bytes are left over. */
  lemma ScanShape(data: seq<byte>, decode: Decoder, isOther: IsOther)
    ensures var o := Scan(data, decode, isOther);
      && (forall k :: 0 <= k < |o.lines| ==> |o.lines[k].bytes| == LineLen && o.lines[k].offset == LineLen * k)
      && (o.status.IndexError? ==> |data| >= 1 && o.status.index == |data| && decode([data[|data| - 1]]).Some?)
      && (o.status.TypeError? ==> 1 <= |o.status.pendingBytes| < LineLen)
      && (data == [] ==> o == Outcome([], Completed))
  {
    StartInv(data, decode, isOther, AsWritten);
    RunShape(data, decode, isOther, AsWritten, Start);
  }

  /** Unless it crashes with `IndexError`, `display` accounts for the input: the
      bytes of the printed lines followed by those left pending are the input with
      at most some 0x00 bytes deleted, and exactly the input when it has no 0x00. */
  lemma ScanBytes(data: seq<byte>, decode: Decoder, isOther: IsOther)
    ensures var o := Scan(data, decode, isOther);
      !o.status.IndexError? ==>
        && DropsOnlyZeros(AllBytes(o), data)
        && (0 !in data ==> AllBytes(o) == data)
  {
    StartInv(data, decode, isOther, AsWritten);
    RunBytes(data, decode, isOther, AsWritten, Start);
    var o := Scan(data, decode, isOther);
    if !o.status.IndexError? && 0 !in data {
      DropsOnlyZerosExact(AllBytes(o), data);
    }
  }

  /** Unless it crashes with `IndexError`, the text columns of `display`, followed by
      the chars left pending, are the transcription of the input: decoded chars in
      decode order, `C*` chars as `.`, one `.` per undecodable byte, wherever the
      line boundaries fall. */
  lemma ScanChars(data: seq<byte>, decode: Decoder, isOther: IsOther)
    ensures var o := Scan(data, decode, isOther);
      !o.status.IndexError? ==> AllChars(o) == Transcribe(data, decode, isOther)
  {
    StartInv(data, decode, isOther, AsWritten);
    RunChars(data, decode, isOther, AsWritten, Start);
  }

  lemma {:induction false} FlattenFullLines(lines: seq<LineRecord>)
    requires forall k :: 0 <= k < |lines| ==> |lines[k].bytes| == LineLen
    ensures |Flatten(lines)| == LineLen * |lines|
    decreases |lines|
  {
    if lines != [] {
      FlattenFullLines(lines[..|lines| - 1]);
    }
  }

  /** As written, `display` completes normally on an input without 0x00 bytes only
      when the input length is a multiple of 16: every other such input ends in
      `IndexError` or `TypeError`. */
  lemma UnalignedInputCrashes(data: seq<byte>, decode: Decoder, isOther: IsOther)
    requires 0 !in data && |data| % LineLen != 0
    ensures Scan(data, decode, isOther).status != Completed
  {
    var o := Scan(data, decode, isOther);
    ScanShape(data, decode, isOther);
    ScanBytes(data, decode, isOther);
    FlattenFullLines(o.lines);
    assert o.status == Completed ==> |data| == LineLen * |o.lines|;
  }

  // ---------------------------------------------------------------------------
  // display as intended

  /** The corrected loop always completes and prints every input byte exactly
      once, in order: all lines but the last have 16 bytes, the last has 1 to 16,
      line k starts at offset 16·k, the text columns concatenate to the
      transcription of the input, and nothing is printed for empty input only. */
  lemma CorrectedScanIsComplete(data: seq<byte>, decode: Decoder, isOther: IsOther)
    ensures var o := ScanCorrected(data, decode, isOther);
      && o.status == Completed
      && Flatten(o.lines) == data
      && FlattenChars(o.lines) == Transcribe(data, decode, isOther)
      && (forall k :: 0 <= k < |o.lines| ==> o.lines[k].offset == LineLen * k && 1 <= |o.lines[k].bytes| <= LineLen)
      && (forall k :: 0 <= k < |o.lines| - 1 ==> |o.lines[k].bytes| == LineLen)
      && (o.lines == [] <==> data == [])
  {
    StartInv(data, decode, isOther, Corrected);
    RunShape(data, decode, isOther, Corrected, Start);
    RunBytes(data, decode, isOther, Corrected, Start);
    RunChars(data, decode, isOther, Corrected, Start);
  }
}
