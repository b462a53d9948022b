// The line renderer `print_line` (xjis.py:32-38): one output line holding the
// offset field, the space-separated hex byte column and the decoded text column,
// together with a parser that reads such a line back, so that the rendering is
// pinned down by a round trip rather than by restating its definition.

module LineFormat {
  import opened Common

  /** What `print_line` is given for one display line. */
  datatype LineRecord = LineRecord(offset: nat, bytes: seq<byte>, chars: seq<char>)

  /** The column separator `' │ '` (the bar is U+2502). */
  const Bar: char := '\U{2502}'
  const Separator: string := [' ', Bar, ' ']

  /** Width of the offset field, `{:6d}` / `{:6x}`. */
  const OffsetWidth: nat := 6

  // ---------------------------------------------------------------------------
  // Digits

  function DigitChar(d: nat): (c: char)
    requires d < 16
  {
    if d < 10 then ('0' as int + d) as char else ('a' as int + d - 10) as char
  }

  /** The value of `c` as a digit in `base`, if it is one (lowercase only). */
  function DigitValue(c: char, base: nat): (d: Option<nat>)
  {
    if '0' <= c <= '9' && (c as int - '0' as int) < base then Some(c as int - '0' as int)
    else if 'a' <= c <= 'f' && 10 + (c as int - 'a' as int) < base then Some(10 + (c as int - 'a' as int))
    else None
  }

  predicate IsDigitChar(c: char)
  {
    '0' <= c <= '9' || 'a' <= c <= 'f'
  }

  lemma DigitCharValue(d: nat, base: nat)
    requires d < base <= 16
    ensures IsDigitChar(DigitChar(d))
    ensures DigitValue(DigitChar(d), base) == Some(d)
  {
  }

  /** Python's `format(n, 'd')` (base 10) or `format(n, 'x')` (base 16) for n >= 0. */
  function ToDigits(n: nat, base: nat): (s: string)
    requires 2 <= base <= 16
    decreases n
  {
    if n < base then [DigitChar(n)] else ToDigits(n / base, base) + [DigitChar(n % base)]
  }

  /** Reads a non-empty string of digits in `base`, most significant first. */
  function ParseDigits(s: string, base: nat): (n: Option<nat>)
    decreases |s|
  {
    if s == [] then None
    else
      match DigitValue(s[|s| - 1], base)
      case None => None
      case Some(d) =>
        if |s| == 1 then Some(d)
        else
          match ParseDigits(s[..|s| - 1], base)
          case None => None
          case Some(v) => Some(v * base + d)
  }

  /** The digit string of `n` is non-empty, made of lowercase digit characters,
      and canonical: it starts with `0` only when `n` is zero. */
  lemma {:induction false} ToDigitsShape(n: nat, base: nat)
    requires 2 <= base <= 16
    ensures |ToDigits(n, base)| >= 1
    ensures forall k :: 0 <= k < |ToDigits(n, base)| ==> IsDigitChar(ToDigits(n, base)[k])
    ensures ToDigits(n, base)[0] == '0' <==> n == 0
    decreases n
  {
    if n < base {
      DigitCharValue(n, base);
    } else {
      ToDigitsLast(n, base);
      ToDigitsShape(n / base, base);
      DigitCharValue(n % base, base);
    }
  }

  lemma ParseDigitsSnoc(p: string, c: char, base: nat, v: nat, d: nat, n: nat)
    requires p != [] && ParseDigits(p, base) == Some(v) && DigitValue(c, base) == Some(d)
    requires v * base + d == n
    ensures ParseDigits(p + [c], base) == Some(n)
  {
    var s := p + [c];
    assert s[|s| - 1] == c;
    assert s[..|s| - 1] == p;
  }

  /** Splitting off the last digit: `n` is `n / base` followed by `n % base`. */
  lemma ToDigitsLast(n: nat, base: nat)
    requires 2 <= base <= 16 && n >= base
    ensures 0 < n / base < n && n % base < base
    ensures (n / base) * base + n % base == n
    ensures ToDigits(n, base) == ToDigits(n / base, base) + [DigitChar(n % base)]
  {
  }

  /** The digit string of `n` reads back as `n`. */
  lemma {:induction false} ToDigitsRoundTrip(n: nat, base: nat)
    requires 2 <= base <= 16
    ensures ParseDigits(ToDigits(n, base), base) == Some(n)
    decreases n
  {
    DigitCharValue(n % base, base);
    if n < base {
      assert ToDigits(n, base) == [DigitChar(n)];
    } else {
      ToDigitsLast(n, base);
      var q := n / base;
      ToDigitsRoundTrip(q, base);
      ToDigitsShape(q, base);
      ParseDigitsSnoc(ToDigits(q, base), DigitChar(n % base), base, q, n % base, n);
    }
  }

  // ---------------------------------------------------------------------------
  // Offset column

  function Spaces(k: nat): (s: string)
    ensures |s| == k && forall j :: 0 <= j < k ==> s[j] == ' '
  {
    seq(k, _ => ' ')
  }

  function OffsetDigits(offset: nat, hexStyle: bool): (digits: string)
  {
    ToDigits(offset, if hexStyle then 16 else 10)
  }

  /** `'{:6d}'.format(offset)` or `'{:6x}'.format(offset)`: the digits right-aligned
      in a field of width 6, padded with spaces, widened (never truncated) when the
      digits need more room. */
  function OffsetLabel(offset: nat, hexStyle: bool): (field: string)
    ensures var d := OffsetDigits(offset, hexStyle);
      && |field| == Max(OffsetWidth, |d|)
      && field[|field| - |d|..] == d
      && forall j :: 0 <= j < |field| - |d| ==> field[j] == ' '
  {
    var d := OffsetDigits(offset, hexStyle);
    Spaces(if |d| < OffsetWidth then OffsetWidth - |d| else 0) + d
  }

  function TrimLeadingSpaces(s: string): string
    decreases |s|
  {
    if s != [] && s[0] == ' ' then TrimLeadingSpaces(s[1..]) else s
  }

  lemma {:induction false} TrimSpacesPrefix(k: nat, d: string)
    requires d == [] || d[0] != ' '
    ensures TrimLeadingSpaces(Spaces(k) + d) == d
    decreases k
  {
    if k > 0 {
      assert (Spaces(k) + d)[1..] == Spaces(k - 1) + d;
      TrimSpacesPrefix(k - 1, d);
    } else {
      assert Spaces(k) + d == d;
    }
  }

  /** Reads an offset field back: drop the padding, read the digits. */
  function ParseOffset(field: string, hexStyle: bool): Option<nat>
  {
    ParseDigits(TrimLeadingSpaces(field), if hexStyle then 16 else 10)
  }

  lemma OffsetLabelRoundTrip(offset: nat, hexStyle: bool)
    ensures ParseOffset(OffsetLabel(offset, hexStyle), hexStyle) == Some(offset)
  {
    var base := if hexStyle then 16 else 10;
    var d := OffsetDigits(offset, hexStyle);
    ToDigitsRoundTrip(offset, base);
    ToDigitsShape(offset, base);
    var k := if |d| < OffsetWidth then OffsetWidth - |d| else 0;
    assert d[0] != ' ' by { assert IsDigitChar(d[0]); }
    TrimSpacesPrefix(k, d);
  }

  lemma NoBarInPaddedDigits(pad: string, d: string)
    requires forall j :: 0 <= j < |pad| ==> pad[j] == ' '
    requires forall j :: 0 <= j < |d| ==> IsDigitChar(d[j])
    ensures Bar !in pad + d
  {
    forall j | 0 <= j < |pad + d| ensures (pad + d)[j] != Bar {
      if j >= |pad| {
        assert (pad + d)[j] == d[j - |pad|];
      }
    }
  }

  lemma OffsetLabelHasNoBar(offset: nat, hexStyle: bool)
    ensures Bar !in OffsetLabel(offset, hexStyle)
  {
    var d := OffsetDigits(offset, hexStyle);
    ToDigitsShape(offset, if hexStyle then 16 else 10);
    var pad := Spaces(if |d| < OffsetWidth then OffsetWidth - |d| else 0);
    assert OffsetLabel(offset, hexStyle) == pad + d;
    NoBarInPaddedDigits(pad, d);
  }

  // ---------------------------------------------------------------------------
  // Byte column

  /** `f'{x:02x}'`: exactly two lowercase hex digits, zero-padded. */
  function Hex2(b: byte): (s: string)
    ensures |s| == 2 && IsDigitChar(s[0]) && IsDigitChar(s[1])
    ensures ParseDigits(s, 16) == Some(b)
  {
    DigitCharValue(b / 16, 16);
    DigitCharValue(b % 16, 16);
    var s := [DigitChar(b / 16), DigitChar(b % 16)];
    assert s[..1] == [DigitChar(b / 16)];
    s
  }

  /** `' '.join(f'{x:02x}' for x in bytes)`. */
  function ByteColumn(bytes: seq<byte>): (column: string)
    decreases |bytes|
  {
    if bytes == [] then []
    else if |bytes| == 1 then Hex2(bytes[0])
    else Hex2(bytes[0]) + " " + ByteColumn(bytes[1..])
  }

  /** Python's `s.split(sep)`: the pieces between separators, `[""]` for `""`. */
  function Split(s: string, sep: char): (parts: seq<string>)
    ensures |parts| >= 1
    decreases |s|
  {
    if s == [] then [[]]
    else
      var rest := Split(s[1..], sep);
      if s[0] == sep then [[]] + rest else [[s[0]] + rest[0]] + rest[1..]
  }

  lemma {:induction false} SplitWord(w: string, sep: char, r: string)
    requires sep !in w
    ensures Split(w, sep) == [w]
    ensures Split(w + [sep] + r, sep) == [w] + Split(r, sep)
    decreases |w|
  {
    if w == [] {
      assert w + [sep] + r == [sep] + r;
      assert ([sep] + r)[1..] == r;
    } else {
      SplitWord(w[1..], sep, r);
      assert (w + [sep] + r)[1..] == w[1..] + [sep] + r;
      assert [w[0]] + w[1..] == w;
    }
  }

  /** Reads hex groups, each a byte value. */
  function ParseGroups(groups: seq<string>): Option<seq<byte>>
    decreases |groups|
  {
    if groups == [] then Some([])
    else
      match ParseDigits(groups[0], 16)
      case None => None
      case Some(v) =>
        if v < 0x100 then
          match ParseGroups(groups[1..])
          case None => None
          case Some(rest) => Some([v as byte] + rest)
        else None
  }

  /** Reads a byte column back: split on spaces, read each group as hex. */
  function ParseByteColumn(column: string): Option<seq<byte>>
  {
    if column == [] then Some([]) else ParseGroups(Split(column, ' '))
  }

  function HexGroups(bytes: seq<byte>): (groups: seq<string>)
    ensures |groups| == |bytes|
    decreases |bytes|
  {
    if bytes == [] then [] else [Hex2(bytes[0])] + HexGroups(bytes[1..])
  }

  lemma {:induction false} ByteColumnGroups(bytes: seq<byte>)
    requires bytes != []
    ensures Split(ByteColumn(bytes), ' ') == HexGroups(bytes)
    decreases |bytes|
  {
    var h := Hex2(bytes[0]);
    assert ' ' !in h;
    if |bytes| == 1 {
      SplitWord(h, ' ', []);
    } else {
      ByteColumnGroups(bytes[1..]);
      SplitWord(h, ' ', ByteColumn(bytes[1..]));
    }
  }

  lemma {:induction false} HexGroupsParse(bytes: seq<byte>)
    ensures ParseGroups(HexGroups(bytes)) == Some(bytes)
    decreases |bytes|
  {
    if bytes != [] {
      HexGroupsParse(bytes[1..]);
      assert HexGroups(bytes)[1..] == HexGroups(bytes[1..]);
      assert [bytes[0]] + bytes[1..] == bytes;
    }
  }

  /** The byte column holds exactly two hex digits per byte with one space between
      neighbours, and splitting it on spaces and reading each group as hex gives
      back the bytes. */
  lemma {:induction false} ByteColumnRoundTrip(bytes: seq<byte>)
    ensures |ByteColumn(bytes)| == if bytes == [] then 0 else 3 * |bytes| - 1
    ensures forall j :: 0 <= j < |ByteColumn(bytes)| ==>
      (if j % 3 == 2 then ByteColumn(bytes)[j] == ' ' else IsDigitChar(ByteColumn(bytes)[j]))
    ensures ParseByteColumn(ByteColumn(bytes)) == Some(bytes)
    decreases |bytes|
  {
    if bytes != [] {
      var col := ByteColumn(bytes);
      var h := Hex2(bytes[0]);
      if |bytes| > 1 {
        ByteColumnRoundTrip(bytes[1..]);
        var tail := ByteColumn(bytes[1..]);
        assert col == h + " " + tail;
        forall j | 0 <= j < |col|
          ensures if j % 3 == 2 then col[j] == ' ' else IsDigitChar(col[j])
        {
          if j >= 3 {
            assert col[j] == tail[j - 3];
            assert (j - 3) % 3 == j % 3;
          }
        }
      }
      ByteColumnGroups(bytes);
      HexGroupsParse(bytes);
    }
  }

  // ---------------------------------------------------------------------------
  // Whole line

  /** The text `print_line` writes for one record: offset field, byte column and
      chars, separated by `' │ '`, ended by a newline. */
  function PrintLine(offset: nat, bytes: seq<byte>, chars: seq<char>, hexStyle: bool): (line: string)
  {
    OffsetLabel(offset, hexStyle) + Separator + ByteColumn(bytes) + Separator + chars + "\n"
  }

  /** The part of `s` before the first `c` and the part after it. */
  function SplitAt(s: string, c: char): Option<(string, string)>
    decreases |s|
  {
    if s == [] then None
    else if s[0] == c then Some(([], s[1..]))
    else
      match SplitAt(s[1..], c)
      case None => None
      case Some((a, b)) => Some(([s[0]] + a, b))
  }

  lemma {:induction false} SplitAtFirst(a: string, c: char, b: string)
    requires c !in a
    ensures SplitAt(a + [c] + b, c) == Some((a, b))
    decreases |a|
  {
    if a == [] {
      assert a + [c] + b == [c] + b;
      assert ([c] + b)[1..] == b;
    } else {
      SplitAtFirst(a[1..], c, b);
      assert (a + [c] + b)[1..] == a[1..] + [c] + b;
      assert [a[0]] + a[1..] == a;
    }
  }

  /** Reads a rendered line back into its record: the first two bars are the
      separators (neither the field nor the byte column contains one), and the text
      column is whatever lies between the second separator and the final newline. */
  function ParseLine(line: string, hexStyle: bool): Option<LineRecord>
  {
    match SplitAt(line, Bar)
    case None => None
    case Some((left, rest)) =>
      match SplitAt(rest, Bar)
      case None => None
      case Some((middle, right)) =>
        if && |left| >= 1 && left[|left| - 1] == ' '
           && |middle| >= 2 && middle[0] == ' ' && middle[|middle| - 1] == ' '
           && |right| >= 2 && right[0] == ' ' && right[|right| - 1] == '\n'
        then
          match (ParseOffset(left[..|left| - 1], hexStyle), ParseByteColumn(middle[1..|middle| - 1]))
          case (Some(offset), Some(bytes)) => Some(LineRecord(offset, bytes, right[1..|right| - 1]))
          case _ => None
        else None
  }

  lemma ByteColumnHasNoBar(bytes: seq<byte>)
    ensures Bar !in ByteColumn(bytes)
  {
    var column := ByteColumn(bytes);
    ByteColumnRoundTrip(bytes);
    forall j | 0 <= j < |column| ensures column[j] != Bar {
      assert j % 3 == 2 || IsDigitChar(column[j]);
    }
  }

  /** A line built from a bar-free offset field and a bar-free byte column is
      parsed back column by column. */
  lemma ParseLineColumns(field: string, column: string, chars: seq<char>, hexStyle: bool)
    requires Bar !in field && Bar !in column
    ensures ParseLine(field + Separator + column + Separator + chars + "\n", hexStyle)
      == match (ParseOffset(field, hexStyle), ParseByteColumn(column))
         case (Some(offset), Some(bytes)) => Some(LineRecord(offset, bytes, chars))
         case _ => None
  {
    var left := field + " ";
    var middle := " " + column + " ";
    var right := " " + chars + "\n";
    var rest := middle + [Bar] + right;
    assert Bar !in left;
    assert Bar !in middle;
    assert field + Separator + column + Separator + chars + "\n" == left + [Bar] + rest;
    SplitAtFirst(left, Bar, rest);
    SplitAtFirst(middle, Bar, right);
    assert left[..|left| - 1] == field;
    assert middle[1..|middle| - 1] == column;
    assert right[1..|right| - 1] == chars;
  }

  /** Every line `print_line` writes can be read back into the offset, the bytes
      and the chars it was given, whatever those chars are. */
  lemma PrintLineRoundTrip(offset: nat, bytes: seq<byte>, chars: seq<char>, hexStyle: bool)
    ensures ParseLine(PrintLine(offset, bytes, chars, hexStyle), hexStyle)
      == Some(LineRecord(offset, bytes, chars))
  {
    OffsetLabelRoundTrip(offset, hexStyle);
    OffsetLabelHasNoBar(offset, hexStyle);
    ByteColumnRoundTrip(bytes);
    ByteColumnHasNoBar(bytes);
    ParseLineColumns(OffsetLabel(offset, hexStyle), ByteColumn(bytes), chars, hexStyle);
  }
}
