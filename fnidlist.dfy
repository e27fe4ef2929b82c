/**
 * `ParseFnidList` (src/main.cpp): the request list, one `HEX:name` entry per
 * line. A line ends at the first '\n' or NUL; a '\r' before the end is
 * dropped; the hash is the hexadecimal number at the start of the line and
 * the name is everything after the first ':'. The loop only starts a line
 * that begins more than 3 bytes before the end of the file.
 */
module FnidList {
  import opened Wrappers
  import opened Bytes

  /** One requested replacement: a symbol name and its new FNID. */
  datatype Request = Request(name: seq<byte>, fnid: uint32)

  /** A line with no ':' before its end: the source computes a negative name length there and fails. */
  datatype ListError = MissingColon(line: nat)

  const NewLine: byte := 0x0A
  const Return: byte := 0x0D
  const Colon: byte := 0x3A

  /** The file as the loader returns it: its bytes and the two zero bytes of `calloc(1, size + 2)`. */
  function Loaded(text: seq<byte>): seq<byte>
  {
    text + [0, 0]
  }

  /** `strchr` for '\n', falling back to the terminating NUL: where the line from `i` ends. */
  function LineEnd(b: seq<byte>, i: nat): (r: nat)
    requires i < |b| && b[|b| - 1] == 0
    decreases |b| - i
    ensures i <= r < |b| && (b[r] == NewLine || b[r] == 0)
  {
    if b[i] == NewLine || b[i] == 0 then i else LineEnd(b, i + 1)
  }

  /** No line break and no NUL comes before the end `LineEnd` finds. */
  lemma {:induction false} LineEndIsFirst(b: seq<byte>, i: nat)
    requires i < |b| && b[|b| - 1] == 0
    decreases |b| - i
    ensures forall k :: i <= k < LineEnd(b, i) ==> b[k] != NewLine && b[k] != 0
  {
    if !(b[i] == NewLine || b[i] == 0) {
      LineEndIsFirst(b, i + 1);
    }
  }

  /** The first ':' in [i, end). */
  function ColonIn(b: seq<byte>, i: nat, end: nat): (r: Option<nat>)
    requires end <= |b|
    decreases end - i
    ensures r.Some? ==> i <= r.value < end && b[r.value] == Colon
  {
    if i >= end then None
    else if b[i] == Colon then Some(i)
    else ColonIn(b, i + 1, end)
  }

  /** `ColonIn` finds the first ':' of the range, and finds none only when the range has none. */
  lemma {:induction false} ColonInIsFirst(b: seq<byte>, i: nat, end: nat)
    requires end <= |b|
    decreases end - i
    ensures ColonIn(b, i, end).Some? ==> forall k :: i <= k < ColonIn(b, i, end).value ==> b[k] != Colon
    ensures ColonIn(b, i, end).None? ==> forall k :: i <= k < end ==> b[k] != Colon
  {
    if i < end && b[i] != Colon {
      ColonInIsFirst(b, i + 1, end);
    }
  }

  predicate IsHexDigit(c: byte)
  {
    0x30 <= c <= 0x39 || 0x41 <= c <= 0x46 || 0x61 <= c <= 0x66
  }

  function HexDigitValue(c: byte): (v: nat)
    requires IsHexDigit(c)
    ensures v < 16
  {
    if c <= 0x39 then c - 0x30 else if c <= 0x46 then c - 0x41 + 10 else c - 0x61 + 10
  }

  /** The longest prefix of `s` made of hexadecimal digits. */
  function HexPrefix(s: seq<byte>): (r: seq<byte>)
    ensures forall i :: 0 <= i < |r| ==> IsHexDigit(r[i])
  {
    if s != [] && IsHexDigit(s[0]) then [s[0]] + HexPrefix(s[1..]) else []
  }

  function HexValue(digits: seq<byte>): nat
    requires forall i :: 0 <= i < |digits| ==> IsHexDigit(digits[i])
  {
    if digits == [] then 0 else 16 * HexValue(digits[..|digits| - 1]) + HexDigitValue(digits[|digits| - 1])
  }

  /** `strtoul(s, 0, 16)` stored in a `uint32_t`: an optional "0x", then hex digits, low 32 bits kept. */
  function ParseHex(s: seq<byte>): (r: uint32)
    ensures s == [] || !IsHexDigit(s[0]) ==> r == 0
  {
    var digits := if |s| >= 3 && s[0] == 0x30 && (s[1] == 0x78 || s[1] == 0x58) && IsHexDigit(s[2]) then s[2..] else s;
    HexValue(HexPrefix(digits)) % 0x1_0000_0000
  }

  /** The names a parsed list can hold: the line splitting leaves no NUL and no '\n' in them. */
  predicate CleanName(name: seq<byte>)
  {
    forall i :: 0 <= i < |name| ==> name[i] != 0 && name[i] != NewLine
  }

  /** One line from `cur`: the request it yields and where the next line starts. */
  function ParseLine(b: seq<byte>, cur: nat): (r: Result<(Request, nat), ListError>)
    requires cur < |b| && b[|b| - 1] == 0
    ensures r.Ok? ==> cur < r.value.1 <= |b|
  {
    var eol := LineEnd(b, cur);
    var end := if eol > cur && b[eol - 1] == Return then eol - 1 else eol;
    match ColonIn(b, cur, end)
    case None => Err(MissingColon(cur))
    case Some(c) => Ok((Request(b[c + 1..end], ParseHex(b[cur..c])), eol + 1))
  }

  /** The loop of `ParseFnidList` from the line at `cur` of a file of `size` bytes. */
  function ParseLines(b: seq<byte>, size: nat, cur: nat): (r: Result<seq<Request>, ListError>)
    requires |b| == size + 2 && b[|b| - 1] == 0
    decreases size - cur
    ensures r.Ok? && r.value != [] ==> cur + 3 < size && cur + |r.value| <= size
    ensures r.Err? ==> cur <= r.error.line < size
  {
    if cur + 3 >= size then Ok([])
    else match ParseLine(b, cur)
      case Err(e) => Err(e)
      case Ok((req, next)) =>
        match ParseLines(b, size, next)
        case Err(e) => Err(e)
        case Ok(rest) => Ok([req] + rest)
  }

  /** What `ParseFnidList` returns for a list file holding `text`. */
  function Parse(text: seq<byte>): (r: Result<seq<Request>, ListError>)
    ensures |text| <= 3 ==> r == Ok([])
    ensures r.Ok? ==> |r.value| <= |text|
    ensures r.Err? ==> r.error.line < |text|
  {
    ParseLines(Loaded(text), |text|, 0)
  }

  lemma ParsedNameClean(b: seq<byte>, cur: nat)
    requires cur < |b| && b[|b| - 1] == 0
    ensures ParseLine(b, cur).Ok? ==> CleanName(ParseLine(b, cur).value.0.name)
  {
    LineEndIsFirst(b, cur);
  }

  lemma {:induction false} ParsedNamesCleanFrom(b: seq<byte>, size: nat, cur: nat)
    requires |b| == size + 2 && b[|b| - 1] == 0
    decreases size - cur
    ensures ParseLines(b, size, cur).Ok? ==> forall k :: 0 <= k < |ParseLines(b, size, cur).value| ==> CleanName(ParseLines(b, size, cur).value[k].name)
  {
    if cur + 3 < size {
      ParsedNameClean(b, cur);
      if ParseLine(b, cur).Ok? {
        ParsedNamesCleanFrom(b, size, ParseLine(b, cur).value.1);
      }
    }
  }

  /** Every name in a parsed list is free of NUL and '\n'. */
  lemma ParsedNamesClean(text: seq<byte>)
    ensures Parse(text).Ok? ==> forall k :: 0 <= k < |Parse(text).value| ==> CleanName(Parse(text).value[k].name)
  {
    ParsedNamesCleanFrom(Loaded(text), |text|, 0);
  }

  lemma ParseLinesStep(b: seq<byte>, size: nat, cur: nat, req: Request, next: nat)
    requires |b| == size + 2 && b[|b| - 1] == 0 && cur + 3 < size
    requires ParseLine(b, cur) == Ok((req, next))
    ensures ParseLines(b, size, cur) == Prepend([req], ParseLines(b, size, next))
  {
  }

  /** `strchr(currentLine, '\n')`, then `strchr(currentLine, '\0')` when there is none: a byte-by-byte search. */
  method FindLineEnd(buffer: seq<byte>, currentLine: nat) returns (endOfLine: nat)
    requires currentLine < |buffer| && buffer[|buffer| - 1] == 0
    ensures endOfLine == LineEnd(buffer, currentLine)
  {
    endOfLine := currentLine;
    while buffer[endOfLine] != NewLine && buffer[endOfLine] != 0
      invariant currentLine <= endOfLine < |buffer|
      invariant LineEnd(buffer, endOfLine) == LineEnd(buffer, currentLine)
      decreases |buffer| - endOfLine
    {
      endOfLine := endOfLine + 1;
    }
  }

  /** The `strchr(currentLine, ':')` search, byte by byte, up to the end of the line. */
  method FindColon(buffer: seq<byte>, currentLine: nat, endOfLine: nat) returns (colon: Option<nat>)
    requires endOfLine <= |buffer|
    ensures colon == ColonIn(buffer, currentLine, endOfLine)
  {
    var pos := currentLine;
    while pos < endOfLine && buffer[pos] != Colon
      invariant currentLine <= pos
      invariant ColonIn(buffer, pos, endOfLine) == ColonIn(buffer, currentLine, endOfLine)
      decreases endOfLine - pos
    {
      pos := pos + 1;
    }
    colon := if pos < endOfLine then Some(pos) else None;
  }

  /** The body of the loop of `ParseFnidList`: the line starting at `currentLine` and the start of the next one. */
  method ReadLine(buffer: seq<byte>, currentLine: nat) returns (r: Result<(Request, nat), ListError>)
    requires currentLine < |buffer| && buffer[|buffer| - 1] == 0
    ensures r == ParseLine(buffer, currentLine)
  {
    var endOfLine := FindLineEnd(buffer, currentLine);
    var nextLine: nat := endOfLine + 1;
    if endOfLine > currentLine && buffer[endOfLine - 1] == Return {
      endOfLine := endOfLine - 1;
    }
    var colon := FindColon(buffer, currentLine, endOfLine);
    if colon.None? {
      return Err(MissingColon(currentLine));
    }
    var symbolStart := colon.value + 1;
    var fnid := ParseHex(buffer[currentLine..colon.value]);
    r := Ok((Request(buffer[symbolStart..endOfLine], fnid), nextLine));
  }

  /** `ParseFnidList`: one `push_back` per line, in file order, duplicates kept. */
  method ParseFnidList(text: seq<byte>) returns (r: Result<seq<Request>, ListError>)
    ensures r == Parse(text)
    ensures |text| <= 3 ==> r == Ok([])
  {
    var buffer := Loaded(text);
    var list: seq<Request> := [];
    if |text| > 3 {
      var currentLine := 0;
      assert Prepend([], ParseLines(buffer, |text|, 0)) == Parse(text) by {
        match ParseLines(buffer, |text|, 0)
        case Ok(rest) => assert [] + rest == rest;
        case Err(_) =>
      }
      while currentLine + 3 < |text|
        invariant Prepend(list, ParseLines(buffer, |text|, currentLine)) == Parse(text)
        decreases |text| - currentLine
      {
        var line := ReadLine(buffer, currentLine);
        if line.Err? {
          return Err(line.error);
        }
        var (request, nextLine) := line.value;
        ParseLinesStep(buffer, |text|, currentLine, request, nextLine);
        PrependConcat(list, [request], ParseLines(buffer, |text|, nextLine));
        list := list + [request];
        currentLine := nextLine;
      }
      assert list + [] == list;
    }
    r := Ok(list);
  }

  // A writer for request lists; parsing what it writes gives the list back.

  function HexDigit(v: nat): (c: byte)
    requires v < 16
    ensures IsHexDigit(c) && HexDigitValue(c) == v && c != Colon
  {
    if v < 10 then 0x30 + v else 0x41 + v - 10
  }

  /** `v` as `width` upper-case hexadecimal digits. */
  function HexText(width: nat, v: nat): (s: seq<byte>)
    ensures |s| == width
    ensures forall i :: 0 <= i < width ==> IsHexDigit(s[i]) && s[i] != Colon && s[i] != 0x78 && s[i] != 0x58
  {
    if width == 0 then [] else HexText(width - 1, v / 16) + [HexDigit(v % 16)]
  }

  /** A name that survives a `HEX:name` line: no NUL, no '\n', and no trailing '\r'. */
  predicate Writable(name: seq<byte>)
  {
    CleanName(name) && (name == [] || name[|name| - 1] != Return)
  }

  function FormatLine(r: Request): (s: seq<byte>)
    ensures |s| == 10 + |r.name|
  {
    HexText(8, r.fnid) + [Colon] + r.name + [NewLine]
  }

  function Format(reqs: seq<Request>): seq<byte>
  {
    if reqs == [] then [] else FormatLine(reqs[0]) + Format(reqs[1..])
  }

  function PowSixteen(n: nat): (r: nat)
    ensures r >= 1
  {
    if n == 0 then 1 else 16 * PowSixteen(n - 1)
  }

  lemma {:induction false} HexTextValue(width: nat, v: nat)
    requires v < PowSixteen(width)
    ensures HexValue(HexText(width, v)) == v
  {
    if width > 0 {
      var s := HexText(width, v);
      assert s[..|s| - 1] == HexText(width - 1, v / 16);
      HexTextValue(width - 1, v / 16);
    }
  }

  lemma {:induction false} HexPrefixOfDigits(s: seq<byte>)
    requires forall i :: 0 <= i < |s| ==> IsHexDigit(s[i])
    ensures HexPrefix(s) == s
  {
    if s != [] {
      HexPrefixOfDigits(s[1..]);
    }
  }

  /** Eight hex digits written by `HexText` read back as the same 32-bit value. */
  lemma HexRoundTrip(v: uint32)
    ensures ParseHex(HexText(8, v)) == v
  {
    var s := HexText(8, v);
    HexPrefixOfDigits(s);
    HexTextValue(8, v);
    assert PowSixteen(8) == 0x1_0000_0000;
  }

  /** A line break or the loader's NUL at `e`, with neither before it, is where the line from `i` ends. */
  lemma {:induction false} LineEndAt(b: seq<byte>, i: nat, e: nat)
    requires i <= e < |b| && b[|b| - 1] == 0 && (b[e] == NewLine || b[e] == 0)
    requires forall k :: i <= k < e ==> b[k] != NewLine && b[k] != 0
    ensures LineEnd(b, i) == e
    decreases e - i
  {
    if i < e {
      LineEndAt(b, i + 1, e);
    }
  }

  lemma {:induction false} ColonInAt(b: seq<byte>, i: nat, c: nat, end: nat)
    requires i <= c < end <= |b| && b[c] == Colon
    requires forall k :: i <= k < c ==> b[k] != Colon
    ensures ColonIn(b, i, end) == Some(c)
    decreases c - i
  {
    if i < c {
      ColonInAt(b, i + 1, c, end);
    }
  }

  /** The text of a `HEX:name` line before its break, with an optional '\r'. */
  function OpenLine(hex: seq<byte>, name: seq<byte>, cr: bool): seq<byte>
  {
    hex + [Colon] + name + (if cr then [Return] else [])
  }

  /** A whole `HEX:name` line, ended by '\n'. */
  function RawLine(hex: seq<byte>, name: seq<byte>, cr: bool): seq<byte>
  {
    OpenLine(hex, name, cr) + [NewLine]
  }

  lemma OpenLineBytes(hex: seq<byte>, name: seq<byte>, cr: bool)
    ensures var line := OpenLine(hex, name, cr);
      |line| == |hex| + |name| + (if cr then 2 else 1)
      && (forall k :: 0 <= k < |hex| ==> line[k] == hex[k])
      && line[|hex|] == Colon
      && (forall k :: 0 <= k < |name| ==> line[|hex| + 1 + k] == name[k])
      && (cr ==> line[|hex| + 1 + |name|] == Return)
  {
  }

  /** The bytes of a line's text at `cur`: no line break, no NUL, and no ':' inside the hex digits. */
  lemma OpenLineInside(b: seq<byte>, cur: nat, hex: seq<byte>, name: seq<byte>, cr: bool)
    requires forall i :: 0 <= i < |hex| ==> IsHexDigit(hex[i])
    requires CleanName(name)
    requires cur + |OpenLine(hex, name, cr)| <= |b|
    requires b[cur..cur + |OpenLine(hex, name, cr)|] == OpenLine(hex, name, cr)
    ensures forall k :: cur <= k < cur + |OpenLine(hex, name, cr)| ==>
      b[k] != NewLine && b[k] != 0 && (k < cur + |hex| ==> b[k] != Colon)
  {
    var line := OpenLine(hex, name, cr);
    OpenLineBytes(hex, name, cr);
    var h := |hex|;
    forall k | cur <= k < cur + |line|
      ensures b[k] != NewLine && b[k] != 0 && (k < cur + h ==> b[k] != Colon)
    {
      var j := k - cur;
      assert b[k] == line[j];
      if j < h {
        assert line[j] == hex[j];
      } else if h < j < h + 1 + |name| {
        assert line[j] == name[j - h - 1];
      }
    }
  }

  /** A line's text followed by '\n' or by the NUL ends there, and keeps its '\r' out of the name. */
  lemma OpenLineEnds(b: seq<byte>, cur: nat, hex: seq<byte>, name: seq<byte>, cr: bool)
    requires forall i :: 0 <= i < |hex| ==> IsHexDigit(hex[i])
    requires Writable(name)
    requires cur + |OpenLine(hex, name, cr)| < |b| && b[|b| - 1] == 0
    requires b[cur..cur + |OpenLine(hex, name, cr)|] == OpenLine(hex, name, cr)
    requires var e := cur + |OpenLine(hex, name, cr)|; b[e] == NewLine || b[e] == 0
    ensures var eol := cur + |OpenLine(hex, name, cr)|;
      LineEnd(b, cur) == eol && (eol > cur && b[eol - 1] == Return <==> cr)
  {
    var line := OpenLine(hex, name, cr);
    OpenLineBytes(hex, name, cr);
    OpenLineInside(b, cur, hex, name, cr);
    var eol := cur + |line|;
    LineEndAt(b, cur, eol);
    assert b[eol - 1] == line[|line| - 1];
    if !cr {
      if name == [] {
        assert line[|line| - 1] == Colon;
      } else {
        assert line[|line| - 1] == name[|name| - 1];
      }
    }
  }

  /** The first ':' of a line is the one after its hex digits. */
  lemma OpenLineColon(b: seq<byte>, cur: nat, hex: seq<byte>, name: seq<byte>, cr: bool)
    requires forall i :: 0 <= i < |hex| ==> IsHexDigit(hex[i])
    requires CleanName(name)
    requires cur + |OpenLine(hex, name, cr)| <= |b|
    requires b[cur..cur + |OpenLine(hex, name, cr)|] == OpenLine(hex, name, cr)
    ensures ColonIn(b, cur, cur + |hex| + 1 + |name|) == Some(cur + |hex|)
  {
    OpenLineBytes(hex, name, cr);
    OpenLineInside(b, cur, hex, name, cr);
    assert b[cur + |hex|] == OpenLine(hex, name, cr)[|hex|];
    ColonInAt(b, cur, cur + |hex|, cur + |hex| + 1 + |name|);
  }

  /** The hex digits and the name of a line, read back from the buffer. */
  lemma OpenLineFields(b: seq<byte>, cur: nat, hex: seq<byte>, name: seq<byte>, cr: bool)
    requires cur + |OpenLine(hex, name, cr)| <= |b|
    requires b[cur..cur + |OpenLine(hex, name, cr)|] == OpenLine(hex, name, cr)
    ensures b[cur..cur + |hex|] == hex && b[cur + |hex| + 1..cur + |hex| + 1 + |name|] == name
  {
    var crs: seq<byte> := if cr then [Return] else [];
    var end := cur + |OpenLine(hex, name, cr)|;
    assert OpenLine(hex, name, cr) == hex + ([Colon] + (name + crs));
    SplitSlice(b, cur, end, hex, [Colon] + (name + crs));
    SplitSlice(b, cur + |hex|, end, [Colon], name + crs);
    SplitSlice(b, cur + |hex| + 1, end, name, crs);
  }

  /**
   * A line's text followed by '\n', or by the NUL the loader puts after the
   * file, parses to its name and hex value and hands over to the byte after
   * that terminator.
   */
  lemma ParseOpenLine(b: seq<byte>, cur: nat, hex: seq<byte>, name: seq<byte>, cr: bool)
    requires forall i :: 0 <= i < |hex| ==> IsHexDigit(hex[i])
    requires Writable(name)
    requires cur + |OpenLine(hex, name, cr)| < |b| && b[|b| - 1] == 0
    requires b[cur..cur + |OpenLine(hex, name, cr)|] == OpenLine(hex, name, cr)
    requires var e := cur + |OpenLine(hex, name, cr)|; b[e] == NewLine || b[e] == 0
    ensures ParseLine(b, cur) == Ok((Request(name, ParseHex(hex)), cur + |OpenLine(hex, name, cr)| + 1))
  {
    OpenLineEnds(b, cur, hex, name, cr);
    OpenLineColon(b, cur, hex, name, cr);
    OpenLineFields(b, cur, hex, name, cr);
  }

  /**
   * A line made of hex digits, ':', a name and the line break parses to that
   * name and the hex value, whether or not a '\r' precedes the '\n'.
   */
  lemma ParseLineOf(b: seq<byte>, cur: nat, hex: seq<byte>, name: seq<byte>, cr: bool)
    requires forall i :: 0 <= i < |hex| ==> IsHexDigit(hex[i])
    requires Writable(name)
    requires cur + |RawLine(hex, name, cr)| < |b| && b[|b| - 1] == 0
    requires b[cur..cur + |RawLine(hex, name, cr)|] == RawLine(hex, name, cr)
    ensures ParseLine(b, cur) == Ok((Request(name, ParseHex(hex)), cur + |RawLine(hex, name, cr)|))
  {
    var open := OpenLine(hex, name, cr);
    SplitSlice(b, cur, cur + |RawLine(hex, name, cr)|, open, [NewLine]);
    assert b[cur + |open|] == b[cur + |open|..cur + |RawLine(hex, name, cr)|][0];
    ParseOpenLine(b, cur, hex, name, cr);
  }

  /**
   * The last line of a file need not end in '\n': when its text runs up to the
   * end of the file and begins more than 3 bytes before it, the loader's NUL
   * ends it, and it is the last request read.
   */
  lemma ParseLastLineOf(b: seq<byte>, size: nat, cur: nat, hex: seq<byte>, name: seq<byte>, cr: bool)
    requires forall i :: 0 <= i < |hex| ==> IsHexDigit(hex[i])
    requires Writable(name)
    requires |b| == size + 2 && b[size] == 0 && b[size + 1] == 0
    requires cur + |OpenLine(hex, name, cr)| == size && b[cur..size] == OpenLine(hex, name, cr)
    requires cur + 3 < size
    ensures ParseLine(b, cur) == Ok((Request(name, ParseHex(hex)), size + 1))
    ensures ParseLines(b, size, cur) == Ok([Request(name, ParseHex(hex))])
  {
    ParseOpenLine(b, cur, hex, name, cr);
    ParseLinesStep(b, size, cur, Request(name, ParseHex(hex)), size + 1);
    assert [Request(name, ParseHex(hex))] + [] == [Request(name, ParseHex(hex))];
  }

  /** A formatted line at `cur` parses back to its request and hands over to the byte after its '\n'. */
  lemma ParseLineAt(b: seq<byte>, cur: nat, r: Request)
    requires Writable(r.name)
    requires cur + |FormatLine(r)| < |b| && b[|b| - 1] == 0
    requires b[cur..cur + |FormatLine(r)|] == FormatLine(r)
    ensures ParseLine(b, cur) == Ok((r, cur + |FormatLine(r)|))
  {
    assert FormatLine(r) == RawLine(HexText(8, r.fnid), r.name, false);
    ParseLineOf(b, cur, HexText(8, r.fnid), r.name, false);
    HexRoundTrip(r.fnid);
  }

  lemma SplitSlice(b: seq<byte>, from: nat, to: nat, first: seq<byte>, rest: seq<byte>)
    requires from <= to <= |b| && b[from..to] == first + rest
    ensures from + |first| <= to
    ensures b[from..from + |first|] == first && b[from + |first|..to] == rest
  {
    assert b[from..from + |first|] == b[from..to][..|first|];
    assert b[from + |first|..to] == b[from..to][|first|..];
  }

  /** Formatted lines stored in [cur, stop) parse back to the written requests, followed by whatever comes after them. */
  lemma {:induction false} ParseFormattedAt(b: seq<byte>, size: nat, cur: nat, stop: nat, reqs: seq<Request>)
    requires |b| == size + 2 && b[|b| - 1] == 0
    requires cur <= stop <= size && b[cur..stop] == Format(reqs)
    requires forall k :: 0 <= k < |reqs| ==> Writable(reqs[k].name)
    ensures ParseLines(b, size, cur) == Prepend(reqs, ParseLines(b, size, stop))
    decreases |reqs|
  {
    if reqs != [] {
      var next := FormattedHead(b, size, cur, stop, reqs);
      ParseFormattedAt(b, size, next, stop, reqs[1..]);
      ParseLinesThen(b, size, cur, next, stop, reqs[0], reqs[1..]);
      assert [reqs[0]] + reqs[1..] == reqs;
    } else {
      PrependNothing(ParseLines(b, size, cur));
    }
  }

  /** The first formatted line of a non-empty list at `cur` parses to its request; the rest of the list follows it. */
  lemma FormattedHead(b: seq<byte>, size: nat, cur: nat, stop: nat, reqs: seq<Request>) returns (next: nat)
    requires |b| == size + 2 && b[|b| - 1] == 0
    requires cur <= stop <= size && b[cur..stop] == Format(reqs)
    requires forall k :: 0 <= k < |reqs| ==> Writable(reqs[k].name)
    requires reqs != []
    ensures cur + 3 < next <= stop && b[next..stop] == Format(reqs[1..])
    ensures ParseLine(b, cur) == Ok((reqs[0], next))
  {
    var line := FormatLine(reqs[0]);
    next := cur + |line|;
    SplitSlice(b, cur, stop, line, Format(reqs[1..]));
    ParseLineAt(b, cur, reqs[0]);
  }

  /** A line read at `cur`, then lines read from `next` up to `stop`, make the lines read from `cur` up to `stop`. */
  lemma ParseLinesThen(b: seq<byte>, size: nat, cur: nat, next: nat, stop: nat, r: Request, rest: seq<Request>)
    requires |b| == size + 2 && b[|b| - 1] == 0 && cur + 3 < size
    requires ParseLine(b, cur) == Ok((r, next))
    requires ParseLines(b, size, next) == Prepend(rest, ParseLines(b, size, stop))
    ensures ParseLines(b, size, cur) == Prepend([r] + rest, ParseLines(b, size, stop))
  {
    ParseLinesStep(b, size, cur, r, next);
    PrependConcat([r], rest, ParseLines(b, size, stop));
  }

  /**
   * Writing a list as `HEX:name` lines (8 hex digits each) and parsing it
   * gives back the same requests in the same order, duplicates included,
   * whenever the names can be written on a line.
   */
  lemma FormatThenParse(reqs: seq<Request>)
    requires forall k :: 0 <= k < |reqs| ==> Writable(reqs[k].name)
    ensures Parse(Format(reqs)) == Ok(reqs)
  {
    var text := Format(reqs);
    assert Loaded(text)[0..|text|] == text;
    ParseFormattedAt(Loaded(text), |text|, 0, |text|, reqs);
    PrependAll(reqs, ParseLines(Loaded(text), |text|, |text|));
  }

  /**
   * A final line with no '\n' is read like any other: the list's lines
   * followed by an unterminated `HEX:name` line of more than 3 bytes parse to
   * the list's requests and then that line's.
   */
  lemma UnterminatedLastLine(reqs: seq<Request>, hex: seq<byte>, name: seq<byte>, cr: bool)
    requires forall k :: 0 <= k < |reqs| ==> Writable(reqs[k].name)
    requires forall i :: 0 <= i < |hex| ==> IsHexDigit(hex[i])
    requires Writable(name) && |OpenLine(hex, name, cr)| > 3
    ensures Parse(Format(reqs) + OpenLine(hex, name, cr)) == Ok(reqs + [Request(name, ParseHex(hex))])
  {
    var head := Format(reqs);
    var text := head + OpenLine(hex, name, cr);
    var b := Loaded(text);
    assert b[0..|head|] == head;
    assert b[|head|..|text|] == OpenLine(hex, name, cr);
    ParseFormattedAt(b, |text|, 0, |head|, reqs);
    ParseLastLineOf(b, |text|, |head|, hex, name, cr);
  }

  /**
   * The loop starts a line only more than 3 bytes before the end of the file,
   * so a final fragment of at most 3 bytes after the last '\n' is dropped,
   * whatever it holds.
   */
  lemma ShortTailDropped(reqs: seq<Request>, tail: seq<byte>)
    requires forall k :: 0 <= k < |reqs| ==> Writable(reqs[k].name)
    requires |tail| <= 3
    ensures Parse(Format(reqs) + tail) == Ok(reqs)
  {
    var head := Format(reqs);
    var text := head + tail;
    var b := Loaded(text);
    assert b[0..|head|] == head;
    ParseFormattedAt(b, |text|, 0, |head|, reqs);
    PrependAll(reqs, ParseLines(b, |text|, |head|));
  }

  /** A '\r' before the line break is not part of the name. */
  lemma CarriageReturnStripped(hex: seq<byte>, name: seq<byte>, rest: seq<byte>)
    requires hex != [] && forall i :: 0 <= i < |hex| ==> IsHexDigit(hex[i])
    requires Writable(name)
    ensures var text := RawLine(hex, name, true) + rest;
      Parse(text).Ok? ==> Parse(text).value[0] == Request(name, ParseHex(hex))
  {
    var line := RawLine(hex, name, true);
    var text := line + rest;
    var b := Loaded(text);
    assert b[0..0 + |line|] == line;
    ParseLineOf(b, 0, hex, name, true);
  }
}
