/** Double-quoted scalars of YAML 1.2 (sections 5.7 and 7.3.1): the escaping writer and the reader. Strings are
    sequences of UTF-16 code units. */
module YamlQuoted {
  import opened Arithmetic
  import opened Options
  import opened Utf16

  // ---- Tables -----------------------------------------------------------------------------------------------------

  /** The escapes of section 5.7 of YAML 1.2: what a letter behind the backslash stands for, */
  const ESCAPES: map<int, int> := map[
    '0' as int := 0x00, 'a' as int := 0x07, 'b' as int := 0x08, 't' as int := 0x09, '\t' as int := 0x09,
    'n' as int := 0x0A, 'v' as int := 0x0B, 'f' as int := 0x0C, 'r' as int := 0x0D, 'e' as int := 0x1B,
    ' ' as int := 0x20, '\"' as int := 0x22, '/' as int := 0x2F, '\\' as int := 0x5C, 'N' as int := 0x85,
    '_' as int := 0xA0, 'L' as int := 0x2028, 'P' as int := 0x2029]

  /** and how many hexadecimal digits follow a letter. */
  const HEX_ESCAPES: map<int, nat> := map['x' as int := 2, 'u' as int := 4, 'U' as int := 8]

  const DIGITS := "0123456789ABCDEF"
  const SMALL_DIGITS := "0123456789abcdef"

  /** The table `C` of the writer: the letter after the backslash. */
  function EscapeOf(e: int): Option<int> {
    match e
    case 0 => Some(48)
    case 7 => Some(97)
    case 8 => Some(98)
    case 9 => Some(116)
    case 10 => Some(110)
    case 11 => Some(118)
    case 12 => Some(102)
    case 13 => Some(114)
    case 27 => Some(101)
    case 34 => Some(34)
    case 92 => Some(92)
    case 133 => Some(78)
    case 160 => Some(95)
    case 8232 => Some(76)
    case 8233 => Some(80)
    case _ => None
  }

  /** `S`, the reader's table `E` with `I`: what a letter after the backslash stands for. */
  function SimpleEscape(c: int): Option<int> {
    match c
    case 48 => Some(0)
    case 97 => Some(7)
    case 98 => Some(8)
    case 116 => Some(9)
    case 9 => Some(9)
    case 110 => Some(10)
    case 118 => Some(11)
    case 102 => Some(12)
    case 114 => Some(13)
    case 101 => Some(27)
    case 32 => Some(32)
    case 34 => Some(34)
    case 47 => Some(47)
    case 92 => Some(92)
    case 78 => Some(133)
    case 95 => Some(160)
    case 76 => Some(8232)
    case 80 => Some(8233)
    case _ => None
  }

  /** `U` */
  predicate Printable(e: int) {
    || 32 <= e <= 126
    || (161 <= e <= 55295 && e != 8232 && e != 8233)
    || (57344 <= e <= 65533 && e != 65279)
    || 65536 <= e <= 1114111
  }

  predicate LineBreak(c: int) {
    c == 10 || c == 13
  }

  predicate White(c: int) {
    c == 9 || c == 32
  }

  lemma SimpleEscapeIs(c: int)
    ensures SimpleEscape(c) == if c in ESCAPES then Some(ESCAPES[c]) else None
  {
  }

  /** The writer has the letters of the standard, but for tab, space and slash as they are. */
  lemma EscapeOfIs(e: int, l: int)
    ensures EscapeOf(e) == Some(l) <==> l in ESCAPES && ESCAPES[l] == e && l !in [9, 32, 47]
  {
  }

  // ---- The writer -------------------------------------------------------------------------------------------------

  function HexChar(d: int): int {
    if d < 10 then 48 + d else 65 + d - 10
  }

  /** n in w hexadecimal digits. */
  function Hex(n: nat, w: nat): (r: seq<int>)
    ensures |r| == w
    decreases w
  {
    if w == 0 then [] else Hex(n / 16, w - 1) + [HexChar(n % 16)]
  }

  /** `A` */
  function HexEscape(e: nat): seq<int> {
    if e <= 255 then [92, 120] + Hex(e, 2)
    else if e <= 65535 then [92, 117] + Hex(e, 4)
    else [92, 85] + Hex(e, 8)
  }

  predicate Pair(t: seq<int>) {
    |t| >= 2 && High(t[0]) && Low(t[1])
  }

  /** What is written for the first unit, or the first two if they are a surrogate pair. */
  function Piece(t: seq<int>): (p: seq<int>)
    requires t != [] && t[0] >= 0
    ensures |p| > 0
  {
    if Pair(t) then HexEscape(1024 * (t[0] - 55296) + t[1] - 56320 + 65536)
    else if EscapeOf(t[0]).Some? then [92, EscapeOf(t[0]).value]
    else if Printable(t[0]) then [t[0]]
    else HexEscape(t[0])
  }

  function Escaped(t: seq<int>): seq<int>
    requires Units(t)
  {
    if t == [] then [] else Piece(t) + Escaped(t[if Pair(t) then 2 else 1..])
  }

  lemma {:induction false} EscapedFrom(t: seq<int>, o: nat)
    requires Units(t) && o < |t|
    ensures var s := t[o..];
      Units(s) && s[0] == t[o] && Escaped(s) == Piece(s) + Escaped(t[o + if Pair(s) then 2 else 1..])
    ensures Pair(t[o..]) <==> o + 1 < |t| && High(t[o]) && Low(t[o + 1])
  {
  }

  /** The loop of style `W`. */
  method EscapeString(t: seq<int>) returns (i: seq<int>)
    requires Units(t)
    ensures i == Escaped(t)
  {
    hide Escaped, Hex, EscapeOf, Printable;
    i := [];
    var o := 0;
    assert t[0..] == t;
    while o < |t|
      invariant o <= |t| && Units(t[o..]) && i + Escaped(t[o..]) == Escaped(t)
    {
      EscapedFrom(t, o);
      ghost var s := t[o..];
      var e := t[o];
      var piece;
      if High(e) && o + 1 < |t| && Low(t[o + 1]) {
        piece := HexEscape(1024 * (e - 55296) + t[o + 1] - 56320 + 65536);
        assert s[1] == t[o + 1];
        o := o + 1;
      } else {
        var r := EscapeOf(e);
        piece := if r.None? && Printable(e) then [e] else if r.Some? then [92, r.value] else HexEscape(e);
      }
      assert piece == Piece(s);
      i := i + piece;
      o := o + 1;
    }
    EscapedNothing();
    assert t[o..] == [];
  }

  lemma EscapedNothing()
    ensures Escaped([]) == []
  {
  }

  // ---- Hexadecimal digits -----------------------------------------------------------------------------------------

  /** `N`: the value of a hexadecimal digit, or -1. Setting the bit 0x20 makes letters small. */
  function HexValue(c: int): int {
    if 48 <= c <= 57 then c - 48
    else if 97 <= c <= 102 then c - 97 + 10
    else if 65 <= c <= 70 then c - 65 + 10
    else -1
  }

  /** `D`; `fromCharCode` keeps 16 bits. */
  function CharFromCodepoint(c: int): seq<int> {
    if c <= 65535 then [c % 0x10000]
    else [(55296 + (c - 65536) / 1024) % 0x10000, (56320 + (c - 65536) % 1024) % 0x10000]
  }

  function Down(v: nat, k: nat): nat
    decreases k
  {
    if k == 0 then v else Down(v / 16, k - 1)
  }

  lemma {:induction false} DownMore(v: nat, k: nat)
    ensures Down(v, k + 1) == Down(v, k) / 16 && Down(v, k) <= v
    decreases k
  {
    if k > 0 { DownMore(v / 16, k - 1); }
  }

  lemma {:induction false} HexAt(v: nat, w: nat, i: nat)
    requires i < w
    ensures Hex(v, w)[i] == HexChar(Down(v, w - 1 - i) % 16)
    decreases w
  {
    if i < w - 1 { HexAt(v / 16, w - 1, i); }
  }

  lemma HexDigits(c: int)
    ensures forall d | 0 <= d < 16 ::
      HexChar(d) == DIGITS[d] as int && HexValue(DIGITS[d] as int) == d && HexValue(SMALL_DIGITS[d] as int) == d
    ensures HexValue(c) != -1 ==>
      0 <= HexValue(c) < 16 && (c == DIGITS[HexValue(c)] as int || c == SMALL_DIGITS[HexValue(c)] as int)
  {
  }

  /** A unit outside a pair is written as it is exactly if it is a printable character of section 5.1 of YAML 1.2, but
      no byte order mark and none that has a letter, apart from space and slash. */
  lemma PlainIff(t: seq<int>)
    requires Units(t) && t != [] && !Pair(t)
    ensures Piece(t) == [t[0]] <==>
      && (t[0] in [0x09, 0x0A, 0x0D, 0x85]
          || 0x20 <= t[0] <= 0x7E || 0xA0 <= t[0] <= 0xD7FF || 0xE000 <= t[0] <= 0xFFFD)
      && t[0] != 0xFEFF && forall l :: l in ESCAPES && ESCAPES[l] == t[0] ==> l in [32, 47]
  {
    var e := t[0];
    forall l ensures EscapeOf(e) == Some(l) <==> l in ESCAPES && ESCAPES[l] == e && l !in [9, 32, 47] {
      EscapeOfIs(e, l);
    }
    hide Hex;
  }

  lemma HexCharValue(d: int)
    requires 0 <= d < 16
    ensures HexValue(HexChar(d)) == d
  {
  }

  // ---- What a scalar is read as -----------------------------------------------------------------------------------

  datatype Fault = BadCharacter | BadHex | UnknownEscape | EndOfDocument | EndOfStream

  /** The 0 that ends the input of the reader. */
  ghost predicate Ends(input: seq<int>) {
    |input| > 0 && input[|input| - 1] == 0
  }

  /** White space and line breaks end, and the line there starts; so many were the breaks. */
  datatype Space = Space(end: nat, breaks: nat, lineStart: nat)

  /** The place behind a line break: CR LF, CR or LF. */
  ghost function BehindBreak(input: seq<int>, p: nat): (q: nat)
    requires Ends(input) && p < |input| && LineBreak(input[p])
    ensures p < q < |input|
  {
    if input[p] == 13 && input[p + 1] == 10 then p + 2 else p + 1
  }

  ghost function SpaceFrom(input: seq<int>, p: nat, breaks: nat, lineStart: nat): (r: Space)
    requires Ends(input) && p < |input|
    ensures p <= r.end < |input| && breaks <= r.breaks && (White(input[p]) || LineBreak(input[p]) ==> p < r.end)
    ensures LineBreak(input[p]) ==> breaks < r.breaks
    ensures lineStart <= p ==> r.lineStart <= r.end
    decreases |input| - p
  {
    if White(input[p]) then SpaceFrom(input, p + 1, breaks, lineStart)
    else if LineBreak(input[p]) then var q := BehindBreak(input, p); SpaceFrom(input, q, breaks + 1, q)
    else Space(p, breaks, lineStart)
  }

  /** The line breaks from p to q: LF, or CR without LF behind it. */
  ghost function BreakCount(input: seq<int>, p: nat, q: nat): nat
    requires q < |input|
    decreases q - p
  {
    if p >= q then 0
    else (if input[p] == 10 || (input[p] == 13 && input[p + 1] != 10) then 1 else 0) + BreakCount(input, p + 1, q)
  }

  /** White space and line breaks are taken up to the first other character, and the line breaks are counted. */
  lemma {:induction false} SpaceIs(input: seq<int>, p: nat, breaks: nat, lineStart: nat)
    requires Ends(input) && p < |input|
    ensures var r := SpaceFrom(input, p, breaks, lineStart);
      && (forall i | p <= i < r.end :: input[i] in [9, 10, 13, 32]) && input[r.end] !in [9, 10, 13, 32]
      && r.breaks == breaks + BreakCount(input, p, r.end)
    decreases |input| - p
  {
    if White(input[p]) {
      SpaceIs(input, p + 1, breaks, lineStart);
    } else if LineBreak(input[p]) {
      var q := BehindBreak(input, p);
      SpaceIs(input, q, breaks + 1, q);
    }
  }

  /** The line starts where it did, or behind the last break. */
  lemma {:induction false} LineStartIs(input: seq<int>, p: nat, breaks: nat, lineStart: nat)
    requires Ends(input) && p < |input|
    ensures var r := SpaceFrom(input, p, breaks, lineStart);
      && (r.breaks == breaks ==> r.lineStart == lineStart)
      && (r.breaks > breaks ==> p < r.lineStart <= r.end && input[r.lineStart - 1] in [10, 13])
      && forall i | p <= i < r.end && (r.breaks > breaks ==> r.lineStart <= i) :: input[i] !in [10, 13]
    decreases |input| - p
  {
    if White(input[p]) {
      LineStartIs(input, p + 1, breaks, lineStart);
    } else if LineBreak(input[p]) {
      var q := BehindBreak(input, p);
      LineStartIs(input, q, breaks + 1, q);
    }
  }

  /** `B`: one line break is a space, more are one line feed less. */
  function Fold(breaks: nat): seq<int> {
    if breaks == 1 then [32] else Feeds(breaks)
  }

  /** The line feeds for all breaks but the first. */
  function Feeds(breaks: nat): seq<int> {
    seq(if breaks > 1 then breaks - 1 else 0, _ => 10)
  }

  /** The value of k hexadecimal digits behind acc. */
  ghost function Number(input: seq<int>, p: nat, k: nat, acc: nat): (r: Option<nat>)
    requires Ends(input) && p < |input|
    ensures r.Some? ==> p + k < |input|
    decreases k
  {
    if k == 0 then Some(acc)
    else if HexValue(input[p]) < 0 then None
    else Number(input, p + 1, k - 1, 16 * acc + HexValue(input[p]))
  }

  function DigitCount(s: int): nat {
    if s == 120 then 2 else if s == 117 then 4 else if s == 85 then 8 else 0
  }

  datatype Escape = Escape(units: seq<int>, end: nat, lineStart: nat) | Wrong(fault: Fault)

  /** What stands behind a backslash. */
  ghost function EscapeAt(input: seq<int>, p: nat, lineStart: nat): (r: Escape)
    requires Ends(input) && p < |input|
    ensures r.Escape? ==> p < r.end < |input| && (lineStart <= p ==> r.lineStart <= r.end)
  {
    var s := input[p];
    if LineBreak(s) then var space := SpaceFrom(input, p, 0, lineStart); Escape([], space.end, space.lineStart)
    else if s < 256 && SimpleEscape(s).Some? then Escape([SimpleEscape(s).value], p + 1, lineStart)
    else if DigitCount(s) == 0 then Wrong(UnknownEscape)
    else
      var v := Number(input, p + 1, DigitCount(s), 0);
      if v.None? then Wrong(BadHex)
      else Escape(CharFromCodepoint(Int32(v.value)), p + 1 + DigitCount(s), lineStart)
  }

  predicate Json(c: int) {
    c == 9 || 32 <= c <= 1114111
  }

  ghost predicate AllJson(s: seq<int>) {
    forall i | 0 <= i < |s| :: Json(s[i])
  }

  /** `charCodeAt`, where -1 stands for NaN. */
  function CharAt(input: seq<int>, p: nat): int {
    if p < |input| then input[p] else -1
  }

  /** `F` */
  predicate DocumentSeparator(input: seq<int>, p: nat) {
    var e := CharAt(input, p);
    && (e == 45 || e == 46) && e == CharAt(input, p + 1) && e == CharAt(input, p + 2)
    && var c := CharAt(input, p + 3); c == 0 || White(c) || LineBreak(c)
  }

  datatype Text = Text(units: seq<int>, end: nat) | Refused(fault: Fault)

  function Before(units: seq<int>, rest: Text): Text {
    if rest.Text? then Text(units + rest.units, rest.end) else rest
  }

  /** A run of plain text is refused if it holds a character that is not allowed. */
  ghost function Captured(run: seq<int>, rest: Text): Text {
    if AllJson(run) then Before(run, rest) else Refused(BadCharacter)
  }

  /** What the reader makes of the text of a scalar from p on, where the units from start on are a run of plain text. */
  ghost function TextFrom(input: seq<int>, start: nat, p: nat, lineStart: nat): (r: Text)
    requires Ends(input) && start <= p < |input|
    decreases |input| - p
  {
    var s, run := input[p], input[start..p];
    if s == 0 then Refused(EndOfStream)
    else if s == 34 then Captured(run, Text([], p + 1))
    else if s == 92 then
      var e := EscapeAt(input, p + 1, lineStart);
      Captured(run,
        if e.Wrong? then Refused(e.fault) else Before(e.units, TextFrom(input, e.end, e.end, e.lineStart)))
    else if LineBreak(s) then
      var space := SpaceFrom(input, p, 0, lineStart);
      Captured(run, Before(Fold(space.breaks), TextFrom(input, space.end, space.end, space.lineStart)))
    else if p == lineStart && DocumentSeparator(input, p) then Refused(EndOfDocument)
    else TextFrom(input, start, p + 1, lineStart)
  }

  // ---- The reader -------------------------------------------------------------------------------------------------

  datatype Outcome = NotQuoted | Done | Failed(fault: Fault)

  class Reader {
    const input: seq<int>
    var position: nat
    var line: nat
    var lineStart: nat
    var lineIndent: nat
    var result: seq<int>

    /** The reader does not pass the 0 at the end. */
    ghost predicate Ready()
      reads this
    {
      Ends(input) && position < |input|
    }

    constructor (input: seq<int>)
      requires Ends(input)
      ensures Ready() && position == line == lineStart == lineIndent == 0 && this.input == input
    {
      this.input := input;
      position, line, lineStart, lineIndent, result := 0, 0, 0, 0, [];
    }

    /** `Y` with the check for JSON characters. */
    method CaptureSegment(start: nat, end: nat) returns (ok: bool)
      requires start <= end <= |input|
      modifies `result
      ensures ok <==> AllJson(input[start..end])
      ensures ok ==> result == old(result) + input[start..end]
    {
      ok := true;
      if start < end {
        var i := start;
        while i < end
          invariant start <= i <= end && AllJson(input[start..i]) && result == old(result)
        {
          JsonOne(input, start, i);
          if !Json(input[i]) {
            assert input[start..end][i - start] == input[i];
            return false;
          }
          i := i + 1;
        }
        result := result + input[start..end];
      }
    }

    /** `R`, at a line break. */
    method ReadLineBreak()
      requires Ready() && LineBreak(input[position])
      modifies `position, `line, `lineStart
      ensures position == lineStart == BehindBreak(input, old(position)) && line == old(line) + 1
    {
      if input[position] == 10 {
        position := position + 1;
      } else {
        position := position + 1;
        if input[position] == 10 { position := position + 1; }
      }
      line := line + 1;
      lineStart := position;
    }

    /** The spaces that the line starts with have been counted. */
    ghost predicate Indented()
      reads `lineStart, `lineIndent
    {
      && lineStart + lineIndent < |input| && input[lineStart + lineIndent] != 32
      && forall i | lineStart <= i < lineStart + lineIndent :: input[i] == 32
    }

    method SkipWhite(ghost breaks: nat)
      requires Ready()
      modifies `position
      ensures Ready() && !White(input[position]) && old(position) <= position
      ensures SpaceFrom(input, position, breaks, lineStart) == SpaceFrom(input, old(position), breaks, lineStart)
    {
      while White(input[position])
        invariant Ready() && old(position) <= position
        invariant SpaceFrom(input, position, breaks, lineStart) == SpaceFrom(input, old(position), breaks, lineStart)
        decreases |input| - position
      {
        position := position + 1;
      }
    }

    /** The spaces at the start of a line. */
    method SkipIndent(ghost breaks: nat)
      requires Ready() && position == lineStart
      modifies `position, `lineIndent
      ensures Ready() && Indented() && old(position) <= position
      ensures SpaceFrom(input, position, breaks, lineStart) == SpaceFrom(input, old(position), breaks, lineStart)
    {
      lineIndent := 0;
      while input[position] == 32
        invariant Ready() && position == lineStart + lineIndent
        invariant forall i | lineStart <= i < position :: input[i] == 32
        invariant SpaceFrom(input, position, breaks, lineStart) == SpaceFrom(input, old(position), breaks, lineStart)
        decreases |input| - position
      {
        lineIndent := lineIndent + 1;
        position := position + 1;
      }
    }

    lemma BreakAt(breaks: nat)
      requires Ready() && LineBreak(input[position])
      ensures var q := BehindBreak(input, position);
        SpaceFrom(input, position, breaks, lineStart) == SpaceFrom(input, q, breaks + 1, q)
    {
    }

    lemma NoBreakAt(breaks: nat)
      requires Ready() && !White(input[position]) && !LineBreak(input[position])
      ensures SpaceFrom(input, position, breaks, lineStart) == Space(position, breaks, lineStart)
    {
    }

    /** `Q` without comments: white space and line breaks are skipped, and the breaks counted. */
    method SkipSeparationSpace() returns (breaks: nat)
      requires Ready()
      modifies `position, `line, `lineStart, `lineIndent
      ensures Space(position, breaks, lineStart) == SpaceFrom(input, old(position), 0, old(lineStart)) && Ready()
      ensures line == old(line) + breaks && if breaks == 0 then lineIndent == old(lineIndent) else Indented()
    {
      hide SpaceFrom, BehindBreak;
      breaks := 0;
      ghost var all := SpaceFrom(input, position, 0, lineStart);
      while input[position] != 0
        invariant Ready() && SpaceFrom(input, position, breaks, lineStart) == all && line == old(line) + breaks
        invariant if breaks == 0 then lineIndent == old(lineIndent) else Indented()
        decreases |input| - position
      {
        SkipWhite(breaks);
        if !LineBreak(input[position]) { break; }
        BreakAt(breaks);
        ReadLineBreak();
        breaks := breaks + 1;
        SkipIndent(breaks);
      }
      NoBreakAt(breaks);
    }

    method WriteFoldedLines(count: nat)
      modifies `result
      ensures result == old(result) + Fold(count)
    {
      if count == 1 {
        result := result + [32];
      } else if count > 1 {
        result := result + seq(count - 1, _ => 10);
      }
    }

    /** The digits after an escape letter; at the end the position is that of the last digit. */
    method ReadHex(count: nat) returns (o: Option<int>)
      requires Ready() && input[position] != 0 && count > 0
      modifies `position
      ensures var v := Number(input, old(position) + 1, count, 0);
        if v.Some? then o == Some(Int32(v.value)) && position == old(position) + count && input[position] != 0
        else o == None
    {
      ghost var all, v: nat := Number(input, position + 1, count, 0), 0;
      var i, n := count, 0;
      while i > 0
        invariant i <= count && Ready() && input[position] != 0 && position == old(position) + (count - i)
        invariant Number(input, position + 1, i, v) == all && n == Int32(v)
      {
        position := position + 1;
        var u := HexValue(input[position]);
        if u < 0 { return None; }
        ShiftIn(v, u);
        n := Int32(n * 16) + u;
        v := 16 * v + u;
        i := i - 1;
      }
      return Some(n);
    }

    /** An escape, from the place behind the backslash to the place behind it. */
    method ReadEscape() returns (fault: Option<Fault>)
      requires Ready()
      modifies `position, `line, `lineStart, `lineIndent, `result
      ensures match EscapeAt(input, old(position), old(lineStart))
        case Escape(units, end, l) =>
          fault == None && result == old(result) + units && position == end && lineStart == l
        case Wrong(f) => fault == Some(f)
      ensures input[old(position)] in ESCAPES ==>
        && fault == None && position == old(position) + 1 && lineStart == old(lineStart)
        && result == old(result) + [ESCAPES[input[old(position)]]]
      ensures fault == Some(UnknownEscape) <==>
        input[old(position)] !in ESCAPES && input[old(position)] !in HEX_ESCAPES && input[old(position)] !in [10, 13]
    {
      hide SimpleEscape, CharFromCodepoint, SpaceFrom, Number, ESCAPES;
      var s := input[position];
      EscapeKinds(s);
      if LineBreak(s) {
        var breaks := SkipSeparationSpace();
        return None;
      }
      if s < 256 && SimpleEscape(s).Some? {
        result := result + [SimpleEscape(s).value];
        position := position + 1;
        return None;
      }
      var count := if s == 120 then 2 else if s == 117 then 4 else if s == 85 then 8 else 0;
      if count == 0 { return Some(UnknownEscape); }
      var o := ReadHex(count);
      if o.None? { return Some(BadHex); }
      result := result + CharFromCodepoint(o.value);
      position := position + 1;
      return None;
    }

    /** `readDoubleQuotedScalar` */
    method ReadDoubleQuoted() returns (outcome: Outcome)
      requires Ready()
      modifies `position, `line, `lineStart, `lineIndent, `result
      ensures outcome.NotQuoted? <==> old(input[position]) != 34
      ensures outcome.NotQuoted? ==> position == old(position) && result == old(result)
      ensures old(input[position]) == 34 ==>
        match TextFrom(input, old(position) + 1, old(position) + 1, old(lineStart))
        case Text(units, end) => outcome == Done && result == units && position == end
        case Refused(f) => outcome == Failed(f)
    {
      hide EscapeAt, SpaceFrom, AllJson, DocumentSeparator, Fold, Before, TextFrom;
      if input[position] != 34 { return NotQuoted; }
      result := [];
      position := position + 1;
      var start: nat, captured: nat := position, position;
      ghost var all := TextFrom(input, position, position, lineStart);
      BeforeNothing(all);
      while input[position] != 0
        invariant Ready() && start <= captured == position
        invariant Before(result, TextFrom(input, start, position, lineStart)) == all
        decreases |input| - position
      {
        var s := input[position];
        Turn(input, start, position, lineStart, result);
        if s == 34 {
          var fine := CaptureSegment(start, position);
          if !fine { return Failed(BadCharacter); }
          position := position + 1;
          return Done;
        }
        if s == 92 {
          var fine := CaptureSegment(start, position);
          if !fine { return Failed(BadCharacter); }
          position := position + 1;
          var fault := ReadEscape();
          if fault.Some? { return Failed(fault.value); }
          start, captured := position, position;
        } else if LineBreak(s) {
          var fine := CaptureSegment(start, captured);
          if !fine { return Failed(BadCharacter); }
          var breaks := SkipSeparationSpace();
          WriteFoldedLines(breaks);
          start, captured := position, position;
        } else if position == lineStart && DocumentSeparator(input, position) {
          return Failed(EndOfDocument);
        } else {
          position := position + 1;
          captured := position;
        }
      }
      Turn(input, start, position, lineStart, result);
      return Failed(EndOfStream);
    }
  }

  lemma EscapeKinds(s: int)
    ensures SimpleEscape(s) == if s in ESCAPES then Some(ESCAPES[s]) else None
    ensures s in ESCAPES ==> s < 256 && s !in HEX_ESCAPES && !LineBreak(s)
    ensures DigitCount(s) == if s in HEX_ESCAPES then HEX_ESCAPES[s] else 0
  {
    SimpleEscapeIs(s);
  }

  lemma JsonOne(input: seq<int>, start: nat, i: nat)
    requires start <= i < |input|
    ensures AllJson(input[start..i + 1]) <==> AllJson(input[start..i]) && Json(input[i])
  {
    var run, more := input[start..i], input[start..i + 1];
    assert more == run + [input[i]];
    if AllJson(more) {
      forall j | 0 <= j < |run| ensures Json(run[j]) { assert Json(more[j]); }
      assert Json(more[i - start]);
    }
  }

  lemma BeforeTwice(a: seq<int>, b: seq<int>, rest: Text)
    ensures Before(a, Before(b, rest)) == Before(a + b, rest)
  {
    if rest.Text? { assert a + (b + rest.units) == (a + b) + rest.units; }
  }

  /** How reading goes on at each kind of character, with `had` before the run. */
  lemma Turn(input: seq<int>, start: nat, p: nat, lineStart: nat, had: seq<int>)
    requires Ends(input) && start <= p < |input|
    ensures var s, run := input[p], input[start..p];
      var e, space := EscapeAt(input, if s == 92 then p + 1 else p, lineStart), SpaceFrom(input, p, 0, lineStart);
      Before(had, TextFrom(input, start, p, lineStart)) ==
        if s == 0 then Refused(EndOfStream)
        else if s != 34 && s != 92 && !LineBreak(s) then
          if p == lineStart && DocumentSeparator(input, p) then Refused(EndOfDocument)
          else Before(had, TextFrom(input, start, p + 1, lineStart))
        else if !AllJson(run) then Refused(BadCharacter)
        else if s == 34 then Text(had + run, p + 1)
        else if s == 92 then
          if e.Wrong? then Refused(e.fault)
          else Before(had + run + e.units, TextFrom(input, e.end, e.end, e.lineStart))
        else Before(had + run + Fold(space.breaks), TextFrom(input, space.end, space.end, space.lineStart))
  {
    hide EscapeAt, SpaceFrom, AllJson, DocumentSeparator, Fold;
    var s, run := input[p], input[start..p];
    if s == 34 {
      BeforeTwice(had, run, Text([], p + 1));
    } else if s == 92 {
      var e := EscapeAt(input, p + 1, lineStart);
      if e.Escape? {
        var rest := TextFrom(input, e.end, e.end, e.lineStart);
        BeforeTwice(had, run, Before(e.units, rest));
        BeforeTwice(had + run, e.units, rest);
      }
    } else if LineBreak(s) {
      var space := SpaceFrom(input, p, 0, lineStart);
      var rest := TextFrom(input, space.end, space.end, space.lineStart);
      BeforeTwice(had, run, Before(Fold(space.breaks), rest));
      BeforeTwice(had + run, Fold(space.breaks), rest);
    }
  }

  lemma BeforeNothing(rest: Text)
    ensures Before([], rest) == rest
  {
  }

  /** A shift by four digits in 32 bits, and the next digit. */
  lemma ShiftIn(v: nat, u: nat)
    requires u < 16
    ensures Int32(Int32(v) * 16) + u == Int32(16 * v + u)
  {
  }

  /** How many units the next piece stands for. */
  function Taken(t: seq<int>): nat
    requires t != []
    ensures Taken(t) <= |t|
  {
    if Pair(t) then 2 else 1
  }

  /** A piece is a unit as it is, a backslash and a letter (w is 0), or a backslash, a letter and w digits of v. */
  lemma PieceIs(t: seq<int>) returns (v: nat, w: nat)
    requires Units(t) && t != []
    ensures var p := Piece(t);
      if |p| == 1 then
        w == 0 && p[0] == t[0] && t[0] >= 32 && t[0] != 34 && t[0] != 92 && Taken(t) == 1
      else if w == 0 then
        |p| == 2 && p[0] == 92 && p[1] < 256 && SimpleEscape(p[1]) == Some(t[0]) && !LineBreak(p[1]) && Taken(t) == 1
      else
        && p == [92, if w == 2 then 120 else if w == 4 then 117 else 85] + Hex(v, w) && (w == 2 || w == 4 || w == 8)
        && w == (if v < 0x100 then 2 else if v < 0x10000 then 4 else 8)
        && Down(v, w) == 0 && v < 0x110000 && CharFromCodepoint(v) == t[..Taken(t)] && SimpleEscape(p[1]) == None
  {
    v, w := 0, 0;
    hide Hex, EscapeOf, SimpleEscape, Printable, Down, CharFromCodepoint;
    if Pair(t) {
      v, w := 1024 * (t[0] - 55296) + t[1] - 56320 + 65536, 8;
      DownSmall(v);
      PairBack(t[0], t[1]);
      LettersFree();
      assert t[..2] == [t[0], t[1]];
    } else if EscapeOf(t[0]).Some? {
      LetterBack(t[0]);
    } else if Printable(t[0]) {
      PlainUnit(t[0]);
    } else {
      v, w := t[0], if t[0] <= 255 then 2 else 4;
      DownSmall(v);
      LettersFree();
      UnitBack(v);
      assert t[..1] == [t[0]];
    }
  }

  lemma UnitBack(c: int)
    requires 0 <= c < 0x10000
    ensures CharFromCodepoint(c) == [c]
  {
  }

  lemma PairBack(h: int, l: int)
    requires High(h) && Low(l)
    ensures CharFromCodepoint(1024 * (h - 55296) + l - 56320 + 65536) == [h, l]
  {
  }

  lemma LetterBack(e: int)
    requires EscapeOf(e).Some?
    ensures var l := EscapeOf(e).value; 0 <= l < 256 && SimpleEscape(l) == Some(e) && !LineBreak(l)
  {
  }

  lemma PlainUnit(e: int)
    requires EscapeOf(e).None? && Printable(e)
    ensures e >= 32 && e != 34 && e != 92
  {
  }

  lemma LettersFree()
    ensures SimpleEscape(120) == None && SimpleEscape(117) == None && SimpleEscape(85) == None
  {
  }

  lemma DownSmall(v: nat)
    ensures (v < 0x100 ==> Down(v, 2) == 0) && (v < 0x10000 ==> Down(v, 4) == 0)
      && (v < 0x1_0000_0000 ==> Down(v, 8) == 0)
  {
  }

  // ---- The round trip ---------------------------------------------------------------------------------------------

  /** The string w stands at place p of the input. */
  ghost predicate Stands(input: seq<int>, p: nat, w: seq<int>) {
    p + |w| <= |input| && input[p..p + |w|] == w
  }

  lemma StandsAt(input: seq<int>, p: nat, w: seq<int>, i: nat)
    requires Stands(input, p, w) && i < |w|
    ensures input[p + i] == w[i]
  {
  }

  lemma StandsBehind(input: seq<int>, p: nat, v: seq<int>, w: seq<int>)
    requires Stands(input, p, v + w)
    ensures Stands(input, p, v) && Stands(input, p + |v|, w)
  {
    var s := input[p..p + |v + w|];
    assert input[p..p + |v|] == s[..|v|] == v;
    assert input[p + |v|..p + |v| + |w|] == s[|v|..] == w;
  }

  /** From digit j on, the digits of v lead to v. */
  lemma {:induction false} HexNumber(input: seq<int>, p: nat, v: nat, w: nat, j: nat)
    requires Ends(input) && Stands(input, p, Hex(v, w)) && j <= w && p + w < |input|
    ensures Number(input, p + j, w - j, Down(v, w - j)) == Some(v)
    decreases w - j
  {
    hide Hex;
    if j < w {
      StandsAt(input, p, Hex(v, w), j);
      HexAt(v, w, j);
      HexCharValue(Down(v, w - 1 - j) % 16);
      DownMore(v, w - 1 - j);
      HexNumber(input, p, v, w, j + 1);
    }
  }

  lemma DigitsWritten(input: seq<int>, p: nat, lineStart: nat, letter: int, v: nat, w: nat)
    requires Ends(input) && Stands(input, p, [92, letter] + Hex(v, w)) && p + 2 + w < |input|
    requires DigitCount(letter) == w > 0 && SimpleEscape(letter).None? && Down(v, w) == 0 && v < 0x110000
    ensures EscapeAt(input, p + 1, lineStart) == Escape(CharFromCodepoint(v), p + 2 + w, lineStart)
  {
    hide Hex, SimpleEscape, CharFromCodepoint, Number, SpaceFrom, Down, Int32, Stands;
    StandsAt(input, p, [92, letter] + Hex(v, w), 1);
    StandsBehind(input, p, [92, letter], Hex(v, w));
    HexNumber(input, p + 2, v, w, 0);
    SmallInt32(v);
  }

  lemma SmallInt32(v: nat)
    requires v < 0x110000
    ensures Int32(v) == v
  {
  }

  /** An escape of the writer is read as the units it was made of. */
  lemma EscapeWritten(input: seq<int>, p: nat, lineStart: nat, t: seq<int>)
    requires Ends(input) && Units(t) && t != [] && Stands(input, p, Piece(t)) && Piece(t)[0] == 92
    requires p + |Piece(t)| < |input|
    ensures EscapeAt(input, p + 1, lineStart) == Escape(t[..Taken(t)], p + |Piece(t)|, lineStart)
  {
    var v, w := PieceIs(t);
    hide Piece, Hex, SimpleEscape, CharFromCodepoint, Number, SpaceFrom, Down, Stands, Ends;
    var piece := Piece(t);
    if w == 0 {
      StandsAt(input, p, piece, 1);
      assert t[..1] == [t[0]];
    } else {
      DigitsWritten(input, p, lineStart, piece[1], v, w);
    }
  }

  /** What stands where the rest of a string is to be read: the closing quote, or the next piece. */
  lemma RestStands(input: seq<int>, p: nat, rest: seq<int>)
    requires Units(rest) && Stands(input, p, Escaped(rest) + [34])
    ensures p < |input|
    ensures rest == [] ==> input[p] == 34 && Escaped(rest) == []
    ensures rest != [] ==>
      var behind := rest[Taken(rest)..]; var piece := Piece(rest);
      && p + |piece| <= |input| && Stands(input, p, piece) && Units(behind)
        && Stands(input, p + |piece|, Escaped(behind) + [34])
      && |Escaped(rest)| == |piece| + |Escaped(behind)| && piece[0] == input[p]
      && (input[p] == 92 || (|piece| == 1 && Taken(rest) == 1 && input[p] == rest[0] && 32 <= rest[0] < 0x10000
        && rest[0] != 34))
  {
    hide Piece;
    if rest == [] {
      StandsAt(input, p, Escaped(rest) + [34], 0);
    } else {
      var piece, behind := Piece(rest), rest[Taken(rest)..];
      assert Escaped(rest) == piece + Escaped(behind);
      hide Escaped;
      assert Escaped(rest) + [34] == piece + (Escaped(behind) + [34]);
      StandsBehind(input, p, piece, Escaped(behind) + [34]);
      StandsAt(input, p, piece, 0);
      var v, w := PieceIs(rest);
    }
  }

  /** The writer's text of a string is read as the string, from any place in it on. */
  lemma {:induction false} WrittenRead(input: seq<int>, start: nat, p: nat, lineStart: nat, rest: seq<int>)
    requires Ends(input) && start <= p && lineStart < p && Units(rest) && Stands(input, p, Escaped(rest) + [34])
    requires p + |Escaped(rest)| + 1 < |input| && AllJson(input[start..p])
    ensures TextFrom(input, start, p, lineStart) == Text(input[start..p] + rest, p + |Escaped(rest)| + 1)
    decreases |rest|
  {
    hide TextFrom, EscapeAt, SpaceFrom, Escaped, Piece, Stands, AllJson, Before, DocumentSeparator;
    RestStands(input, p, rest);
    Turn(input, start, p, lineStart, []);
    BeforeNothing(TextFrom(input, start, p, lineStart));
    if rest == [] {
      assert input[start..p] + rest == input[start..p];
    } else {
      var behind, q := rest[Taken(rest)..], p + |Piece(rest)|;
      if input[p] == 92 {
        EscapeWritten(input, p, lineStart, rest);
        NothingJson(input, q);
        WrittenRead(input, q, q, lineStart, behind);
        BeforeIs([] + input[start..p] + rest[..Taken(rest)], behind, q + |Escaped(behind)| + 1);
        Regroup(input[start..p], rest, Taken(rest), input[q..q]);
      } else {
        JsonOne(input, start, p);
        WrittenRead(input, start, p + 1, lineStart, behind);
        BeforeNothing(TextFrom(input, start, p + 1, lineStart));
        assert input[start..p + 1] == input[start..p] + [rest[0]] && rest == [rest[0]] + behind;
      }
    }
  }

  lemma NothingJson(input: seq<int>, q: nat)
    requires q <= |input|
    ensures AllJson(input[q..q])
  {
  }

  lemma BeforeIs(a: seq<int>, b: seq<int>, end: nat)
    ensures Before(a, Text(b, end)) == Text(a + b, end)
  {
  }

  lemma Regroup(run: seq<int>, rest: seq<int>, k: nat, nothing: seq<int>)
    requires k <= |rest| && nothing == []
    ensures [] + run + rest[..k] + rest[k..] == run + rest && nothing + rest[k..] == rest[k..]
  {
    assert rest[..k] + rest[k..] == rest;
  }

  /** Every sequence of code units, lone surrogates included, comes back from its double-quoted form, here followed by
      the line break that ends a document and the 0 that ends the input. */
  method RoundTrip(t: seq<int>) returns (outcome: Outcome, back: seq<int>)
    requires Units(t)
    ensures outcome == Done && back == t
  {
    hide Escaped, TextFrom;
    var w := EscapeString(t);
    var input := [34] + w + [34] + [10, 0];
    var reader := new Reader(input);
    outcome := reader.ReadDoubleQuoted();
    back := reader.result;
    assert input[1..1 + |w + [34]|] == w + [34];
    NothingJson(input, 1);
    WrittenRead(input, 1, 1, 0, t);
    assert input[1..1] + t == t;
  }

  // ---- What YAML asks for -----------------------------------------------------------------------------------------

  /** Here a line ends, white space before its break included. */
  ghost predicate LineEnds(input: seq<int>, p: nat, lineStart: nat)
    requires Ends(input) && p < |input|
  {
    SpaceFrom(input, p, 0, lineStart).breaks > 0
  }

  /** `---` or `...` at the start of a line ends the document. */
  ghost predicate Forbidden(input: seq<int>, p: nat, lineStart: nat) {
    && p == lineStart && (Stands(input, p, [45, 45, 45]) || Stands(input, p, [46, 46, 46]))
    && p + 3 < |input| && input[p + 3] in [0, 9, 10, 13, 32]
  }

  lemma ForbiddenIs(input: seq<int>, p: nat)
    ensures Forbidden(input, p, p) <==> DocumentSeparator(input, p)
  {
    if p + 3 <= |input| { assert input[p..p + 3] == [input[p], input[p + 1], input[p + 2]]; }
  }

  /** A line feed for each empty line. */
  ghost function EmptyLines(n: nat): seq<int> {
    if n == 0 then [] else [10] + EmptyLines(n - 1)
  }

  /** What an escape stands for by section 5.7; behind an escaped line break each empty line is a line feed. */
  ghost function Meant(input: seq<int>, p: nat, lineStart: nat): (r: Escape)
    requires Ends(input) && p < |input|
    ensures r.Escape? ==> p < r.end < |input|
  {
    var s := input[p];
    if s in [10, 13] then
      var space := SpaceFrom(input, p, 0, lineStart);
      Escape(EmptyLines(space.breaks - 1), space.end, space.lineStart)
    else if s in ESCAPES then Escape([ESCAPES[s]], p + 1, lineStart)
    else if s !in HEX_ESCAPES then Wrong(UnknownEscape)
    else
      var v := Number(input, p + 1, HEX_ESCAPES[s], 0);
      if v.None? then Wrong(BadHex) else Escape(CharFromCodepoint(Int32(v.value)), p + 1 + HEX_ESCAPES[s], lineStart)
  }

  /** The text from p on by sections 5.1, 6.5, 7.3.1 and 9.1 of YAML 1.2: white space on either side of a line break is
      no content, one line break is a space, and more are a line feed for each empty line. */
  ghost function Content(input: seq<int>, p: nat, lineStart: nat): (r: Text)
    requires Ends(input) && p < |input|
    decreases |input| - p
  {
    var s := input[p];
    if s == 0 then Refused(EndOfStream)
    else if s == 34 then Text([], p + 1)
    else if s == 92 then
      var e := Meant(input, p + 1, lineStart);
      if e.Wrong? then Refused(e.fault) else Before(e.units, Content(input, e.end, e.lineStart))
    else if LineEnds(input, p, lineStart) then
      var space := SpaceFrom(input, p, 0, lineStart);
      Before(if space.breaks == 1 then [32] else EmptyLines(space.breaks - 1),
             Content(input, space.end, space.lineStart))
    else if Forbidden(input, p, lineStart) then Refused(EndOfDocument)
    else if s != 9 && !(0x20 <= s <= 0x10FFFF) then Refused(BadCharacter)
    else Before([s], Content(input, p + 1, lineStart))
  }

  /** In the text from p on there is white space before a line break, or an empty line behind an escaped one. */
  ghost predicate Strays(input: seq<int>, p: nat, lineStart: nat)
    requires Ends(input) && p < |input|
    decreases |input| - p
  {
    var s := input[p];
    if s == 0 || s == 34 then false
    else if s == 92 then
      var e := Meant(input, p + 1, lineStart);
      && e.Escape?
      && ((LineBreak(input[p + 1]) && SpaceFrom(input, p + 1, 0, lineStart).breaks > 1)
          || Strays(input, e.end, e.lineStart))
    else if LineEnds(input, p, lineStart) then
      var space := SpaceFrom(input, p, 0, lineStart);
      White(s) || Strays(input, space.end, space.lineStart)
    else Strays(input, p + 1, lineStart)
  }

  ghost function Whites(s: seq<int>): nat {
    multiset(s)[9] + multiset(s)[32]
  }

  ghost function LineFeeds(s: seq<int>): nat {
    multiset(s)[10]
  }

  /** What is read, against what YAML asks for: nothing but white space more, and nothing but line feeds less. */
  ghost predicate Compare(c: Text, r: Text, strays: bool) {
    && (c.Text? <==> r.Text?)
    && (c.Text? ==>
          && c.end == r.end && Whites(c.units) >= Whites(r.units) && LineFeeds(c.units) <= LineFeeds(r.units)
          && if strays then Whites(c.units) > Whites(r.units) || LineFeeds(c.units) < LineFeeds(r.units)
             else c.units == r.units)
  }

  lemma CountJoin(a: seq<int>, b: seq<int>)
    ensures Whites(a + b) == Whites(a) + Whites(b) && LineFeeds(a + b) == LineFeeds(a) + LineFeeds(b)
  {
  }

  /** The same before both; or white space before what is read, or line feeds before what YAML asks for. */
  lemma CompareBefore(a: seq<int>, b: seq<int>, c: Text, r: Text, strays: bool)
    requires Compare(c, r, strays) && Whites(a) >= Whites(b) && LineFeeds(a) <= LineFeeds(b)
    ensures a == b ==> Compare(Before(a, c), Before(b, r), strays)
    ensures Whites(a) > Whites(b) || LineFeeds(a) < LineFeeds(b) ==> Compare(Before(a, c), Before(b, r), true)
  {
    hide Whites, LineFeeds;
    if c.Text? {
      CountJoin(a, c.units);
      CountJoin(b, r.units);
    }
  }

  lemma {:induction false} LinesCount(n: nat)
    ensures |EmptyLines(n)| == n && Whites(EmptyLines(n)) == 0 && LineFeeds(EmptyLines(n)) == n
    ensures forall i | 0 <= i < n :: EmptyLines(n)[i] == 10
  {
    if n > 0 {
      LinesCount(n - 1);
      CountJoin([10], EmptyLines(n - 1));
    }
  }

  lemma FoldIs(breaks: nat)
    requires breaks > 0
    ensures Fold(breaks) == if breaks == 1 then [32] else EmptyLines(breaks - 1)
  {
    LinesCount(breaks - 1);
  }

  /** The reader takes an escape for what it stands for, but for the empty lines behind an escaped line break. */
  lemma EscapeIs(input: seq<int>, p: nat, lineStart: nat)
    requires Ends(input) && p < |input|
    ensures var e, m := EscapeAt(input, p, lineStart), Meant(input, p, lineStart);
      if m.Wrong? then e == m
      else e == Escape(if LineBreak(input[p]) then [] else m.units, m.end, m.lineStart)
  {
    hide ESCAPES, SimpleEscape, Number, SpaceFrom, CharFromCodepoint;
    EscapeKinds(input[p]);
  }

  /** A run of plain text stands before what follows it. */
  lemma {:induction false} RunSplit(input: seq<int>, start: nat, p: nat, lineStart: nat)
    requires Ends(input) && start <= p < |input|
    ensures TextFrom(input, start, p, lineStart).Text? <==>
      AllJson(input[start..p]) && TextFrom(input, p, p, lineStart).Text?
    ensures TextFrom(input, start, p, lineStart).Text? ==>
      TextFrom(input, start, p, lineStart) == Before(input[start..p], TextFrom(input, p, p, lineStart))
    decreases |input| - p
  {
    hide EscapeAt, SpaceFrom, AllJson, Before, DocumentSeparator, Fold;
    var s, run := input[p], input[start..p];
    NothingJson(input, p);
    if s == 34 || s == 92 || LineBreak(s) {
      assert input[p..p] == [];
      CapturedSplit(input, start, p, lineStart);
    } else if s != 0 && !(p == lineStart && DocumentSeparator(input, p)) {
      RunSplit(input, start, p + 1, lineStart);
      RunSplit(input, p, p + 1, lineStart);
      JsonOne(input, start, p);
      JsonOne(input, p, p);
      var rest := TextFrom(input, p + 1, p + 1, lineStart);
      assert input[p..p + 1] == [s] && input[start..p + 1] == run + [s];
      hide TextFrom;
      BeforeTwice(run, [s], rest);
      BeforeText([s], rest);
    }
  }

  lemma BeforeText(a: seq<int>, rest: Text)
    ensures Before(a, rest).Text? <==> rest.Text?
  {
  }

  lemma CapturedSplit(input: seq<int>, start: nat, p: nat, lineStart: nat)
    requires Ends(input) && start <= p < |input| && (input[p] == 34 || input[p] == 92 || LineBreak(input[p]))
    ensures TextFrom(input, start, p, lineStart).Text? <==>
      AllJson(input[start..p]) && TextFrom(input, p, p, lineStart).Text?
    ensures TextFrom(input, start, p, lineStart).Text? ==>
      TextFrom(input, start, p, lineStart) == Before(input[start..p], TextFrom(input, p, p, lineStart))
  {
    hide EscapeAt, SpaceFrom, AllJson, DocumentSeparator, Fold;
    NothingJson(input, p);
    assert input[p..p] == [];
  }

  /** What is read at each kind of character. */
  lemma TextStep(input: seq<int>, p: nat, lineStart: nat)
    requires Ends(input) && p < |input|
    ensures var s := input[p];
      var e, space := EscapeAt(input, if s == 92 then p + 1 else p, lineStart), SpaceFrom(input, p, 0, lineStart);
      var c := TextFrom(input, p, p, lineStart);
      if s == 0 then c == Refused(EndOfStream)
      else if s == 34 then c == Text([], p + 1)
      else if s == 92 then
        c == if e.Wrong? then Refused(e.fault) else Before(e.units, TextFrom(input, e.end, e.end, e.lineStart))
      else if LineBreak(s) then
        c == Before(Fold(space.breaks), TextFrom(input, space.end, space.end, space.lineStart))
      else if p == lineStart && DocumentSeparator(input, p) then c == Refused(EndOfDocument)
      else
        var rest := TextFrom(input, p + 1, p + 1, lineStart);
        (c.Text? <==> Json(s) && rest.Text?) && (c.Text? ==> c == Before([s], rest))
  {
    hide TextFrom, EscapeAt, SpaceFrom, Before, DocumentSeparator, Fold;
    var s, run := input[p], input[p..p];
    Turn(input, p, p, lineStart, []);
    BeforeNothing(TextFrom(input, p, p, lineStart));
    NothingJson(input, p);
    assert run == [] && [] + run == [];
    if s != 0 {
      BeforeNothing(TextFrom(input, p, p + 1, lineStart));
      RunSplit(input, p, p + 1, lineStart);
      JsonOne(input, p, p);
      assert input[p..p + 1] == [s];
    }
    assert forall u: seq<int> :: [] + run + u == u;
  }

  /** White space before a line break makes no difference to YAML. */
  lemma WhiteDropped(input: seq<int>, p: nat, lineStart: nat)
    requires Ends(input) && p < |input| && White(input[p]) && LineEnds(input, p, lineStart)
    ensures Content(input, p, lineStart) == Content(input, p + 1, lineStart) && Strays(input, p, lineStart)
  {
    assert SpaceFrom(input, p, 0, lineStart) == SpaceFrom(input, p + 1, 0, lineStart);
  }

  lemma {:induction false} Compared(input: seq<int>, p: nat, lineStart: nat)
    requires Ends(input) && p < |input|
    ensures Compare(TextFrom(input, p, p, lineStart), Content(input, p, lineStart), Strays(input, p, lineStart))
    decreases |input| - p, 1
  {
    hide TextFrom, EscapeAt, Meant, SpaceFrom, Before, DocumentSeparator, Forbidden, Fold, Compare, Whites, LineFeeds,
      EmptyLines;
    var s := input[p];
    TextStep(input, p, lineStart);
    if s == 0 || s == 34 {
      CompareEnds(input, p, lineStart);
    } else if s == 92 {
      ComparedEscape(input, p, lineStart);
    } else if LineBreak(s) {
      var space := SpaceFrom(input, p, 0, lineStart);
      Compared(input, space.end, space.lineStart);
      FoldIs(space.breaks);
      CompareBefore(Fold(space.breaks), Fold(space.breaks), TextFrom(input, space.end, space.end, space.lineStart),
        Content(input, space.end, space.lineStart), Strays(input, space.end, space.lineStart));
    } else {
      ComparedPlain(input, p, lineStart);
    }
  }

  lemma CompareEnds(input: seq<int>, p: nat, lineStart: nat)
    requires Ends(input) && p < |input| && (input[p] == 0 || input[p] == 34)
    ensures Compare(TextFrom(input, p, p, lineStart), Content(input, p, lineStart), Strays(input, p, lineStart))
  {
    TextStep(input, p, lineStart);
    hide TextFrom;
  }

  lemma {:induction false} ComparedEscape(input: seq<int>, p: nat, lineStart: nat)
    requires Ends(input) && p < |input| && input[p] == 92
    ensures Compare(TextFrom(input, p, p, lineStart), Content(input, p, lineStart), Strays(input, p, lineStart))
    decreases |input| - p, 0
  {
    hide TextFrom, SpaceFrom, Before, Feeds, Whites, LineFeeds, EscapeAt;
    TextStep(input, p, lineStart);
    EscapeIs(input, p + 1, lineStart);
    var e := Meant(input, p + 1, lineStart);
    if e.Escape? {
      var c, r := TextFrom(input, e.end, e.end, e.lineStart), Content(input, e.end, e.lineStart);
      Compared(input, e.end, e.lineStart);
      hide Compare;
      var strays := Strays(input, e.end, e.lineStart);
      if LineBreak(input[p + 1]) {
        var breaks := SpaceFrom(input, p + 1, 0, lineStart).breaks;
        LinesCount(breaks - 1);
        LinesCount(0);
        CompareBefore([], EmptyLines(breaks - 1), c, r, strays);
      } else {
        CompareBefore(e.units, e.units, c, r, strays);
      }
    }
  }

  lemma {:induction false} ComparedPlain(input: seq<int>, p: nat, lineStart: nat)
    requires Ends(input) && p < |input| && input[p] != 0 && input[p] != 34 && input[p] != 92 && !LineBreak(input[p])
    ensures Compare(TextFrom(input, p, p, lineStart), Content(input, p, lineStart), Strays(input, p, lineStart))
    decreases |input| - p, 0
  {
    hide TextFrom, EscapeAt, Before, Fold, Whites, LineFeeds, DocumentSeparator, Forbidden;
    var s := input[p];
    TextStep(input, p, lineStart);
    ForbiddenIs(input, p);
    NotForbidden(input, p, lineStart);
    if !(p == lineStart && DocumentSeparator(input, p)) && Json(s) {
      Compared(input, p + 1, lineStart);
      var c, r := TextFrom(input, p + 1, p + 1, lineStart), Content(input, p + 1, lineStart);
      var strays := Strays(input, p + 1, lineStart);
      BeforeText([s], c);
      if LineEnds(input, p, lineStart) {
        WhiteDropped(input, p, lineStart);
        OneWhite(s);
        CompareBefore([s], [], c, r, strays);
        BeforeNothing(r);
      } else {
        CompareBefore([s], [s], c, r, strays);
      }
    }
  }

  lemma NotForbidden(input: seq<int>, p: nat, lineStart: nat)
    ensures Forbidden(input, p, lineStart) ==> p == lineStart && !White(input[p])
  {
  }

  lemma OneWhite(s: int)
    requires White(s)
    ensures Whites([s]) == 1 && Whites([]) == 0 && LineFeeds([s]) == LineFeeds([]) == 0
  {
  }

  /** The reader accepts what YAML accepts, and reads what YAML asks for exactly if there is no white space before a
      line break and no empty line behind an escaped one. */
  lemma ReadsYamlIff(input: seq<int>, p: nat, lineStart: nat)
    requires Ends(input) && p < |input|
    ensures var c, r := TextFrom(input, p, p, lineStart), Content(input, p, lineStart);
      && (c.Text? <==> r.Text?)
      && (c.Text? ==> (c == r <==> !Strays(input, p, lineStart)))
  {
    hide TextFrom, Content, Strays, Whites, LineFeeds;
    Compared(input, p, lineStart);
  }

  /** "a", a space, a line break, "b": the space stays in front of the folded line. */
  lemma SpaceKept()
    ensures var input := [34, 97, 32, 10, 98, 34, 0];
      TextFrom(input, 1, 1, 0) == Text([97, 32, 32, 98], 6) && Content(input, 1, 0) == Text([97, 32, 98], 6)
  {
  }

  const LOST_LINE := [34, 97, 92, 10, 10, 98, 34, 0]

  /** "a", an escaped line break, an empty line, "b": the empty line is lost. */
  lemma EmptyLineLost()
    ensures TextFrom(LOST_LINE, 1, 1, 0) == Text([97, 98], 7) && Content(LOST_LINE, 1, 0) == Text([97, 10, 98], 7)
  {
    LostLineRead();
    LostLineMeant();
  }

  lemma LostLineSpace()
    ensures Ends(LOST_LINE) && SpaceFrom(LOST_LINE, 3, 0, 0) == Space(5, 2, 5)
  {
    assert SpaceFrom(LOST_LINE, 5, 2, 5) == Space(5, 2, 5);
  }

  lemma LostLineRead()
    ensures Ends(LOST_LINE) && TextFrom(LOST_LINE, 1, 1, 0) == Text([97, 98], 7)
  {
    hide Content, TextFrom, SpaceFrom;
    LostLineSpace();
    TextStep(LOST_LINE, 6, 5);
    TextStep(LOST_LINE, 5, 5);
    TextStep(LOST_LINE, 2, 0);
    TextStep(LOST_LINE, 1, 0);
  }

  lemma LostLineMeant()
    ensures Ends(LOST_LINE) && Content(LOST_LINE, 1, 0) == Text([97, 10, 98], 7)
  {
    hide TextFrom;
    LostLineSpace();
    assert Content(LOST_LINE, 5, 5) == Text([98], 7);
    assert EmptyLines(1) == [10];
    assert Content(LOST_LINE, 2, 0) == Text([10, 98], 7);
  }
}
