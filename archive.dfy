/**
 * The `ar` archive layout that `arlib::ParseArchive` (src/main.cpp) decodes:
 * the magic "!<arch>\n", then 60-byte member headers (name at 0..16, decimal
 * size at 48..58, terminator "`\n" at 58..60), each followed by its content.
 * An optional "/" symbol-table member and then an optional "//" long-names
 * member come first; every later member is a regular member.
 *
 * The buffer is taken to be followed by NUL bytes, as the loader allocates it,
 * so a name comparison that reaches the end of the buffer fails there.
 */
module Archive {
  import opened Wrappers
  import opened Bytes

  const MagicLength := 8
  const HeaderSize := 60
  const NameLength := 16
  const SizeFieldAt := 48
  const SizeFieldEnd := 58

  /** "!<arch>\n" */
  const ArMagic: seq<byte> := [0x21, 0x3C, 0x61, 0x72, 0x63, 0x68, 0x3E, 0x0A]
  /** "`\n" */
  const HeaderEnd: seq<byte> := [0x60, 0x0A]
  /** "/" padded with spaces to 16 bytes */
  const SymbolTableName: seq<byte> := [0x2F] + Spaces(15)
  /** "//" padded with spaces to 16 bytes */
  const LongNamesName: seq<byte> := [0x2F, 0x2F] + Spaces(14)

  function Spaces(n: nat): (r: seq<byte>)
    ensures |r| == n && forall i :: 0 <= i < n ==> r[i] == 0x20
  {
    if n == 0 then [] else [0x20] + Spaces(n - 1)
  }

  /** One archive member: its content, its declared size and the absolute offset of the content. */
  datatype Member = Member(obj: seq<byte>, objSize: nat, fileOffset: nat)

  datatype ArchiveError =
    | NotAnArchive               // too short or wrong magic: the source returns false
    | IllegalHeader(at: nat)     // special member whose terminator is not "`\n": the source calls exit(1)
    | HeaderOverrun(at: nat)     // special member header runs past the buffer
    | ContentOverrun(at: nat)    // member content runs past the buffer

  datatype Archive = Archive(symbolTable: Option<Member>, longNames: Option<Member>, members: seq<Member>)

  predicate IsDigit(b: byte) { 0x30 <= b <= 0x39 }

  /** The characters `isspace` accepts: space, \t, \n, \v, \f, \r. */
  predicate IsSpace(b: byte) { b == 0x20 || 0x09 <= b <= 0x0D }

  function SkipSpaces(s: seq<byte>): (r: seq<byte>)
    ensures |r| <= |s|
  {
    if s != [] && IsSpace(s[0]) then SkipSpaces(s[1..]) else s
  }

  /** The longest prefix of `s` made of decimal digits. */
  function DigitPrefix(s: seq<byte>): (r: seq<byte>)
    ensures |r| <= |s|
  {
    if s != [] && IsDigit(s[0]) then [s[0]] + DigitPrefix(s[1..]) else []
  }

  /** The value of a decimal digit (only ever applied to digits). */
  function DigitValue(b: byte): (v: nat)
    ensures v < 10
  {
    if IsDigit(b) then b - 0x30 else 0
  }

  function Pow10(n: nat): (r: nat)
    ensures r >= 1
  {
    if n == 0 then 1 else 10 * Pow10(n - 1)
  }

  lemma {:induction false} Pow10Grows(m: nat, n: nat)
    requires m <= n
    ensures Pow10(m) <= Pow10(n)
    decreases n
  {
    if m < n {
      Pow10Grows(m, n - 1);
    }
  }

  /** The value of a run of decimal digits; it has no more digits than the run. */
  function DecimalValue(digits: seq<byte>): (r: nat)
    ensures r < Pow10(|digits|)
  {
    if digits == [] then 0
    else 10 * DecimalValue(digits[..|digits| - 1]) + DigitValue(digits[|digits| - 1])
  }

  /** `strtoul(field, 0, 10)` read within the field: leading blanks, then digits. */
  function ParseDecimal(field: seq<byte>): (r: nat)
    ensures r < Pow10(|field|)
    ensures SkipSpaces(field) == [] || !IsDigit(SkipSpaces(field)[0]) ==> r == 0
  {
    var digits := DigitPrefix(SkipSpaces(field));
    Pow10Grows(|digits|, |field|);
    DecimalValue(digits)
  }

  /** `MemberHeader::GetDataSize` of the header at `at`. */
  function SizeField(buf: seq<byte>, at: nat): (r: nat)
    requires at + HeaderSize <= |buf|
    ensures r < 10_000_000_000
  {
    TenDigits();
    ParseDecimal(buf[at + SizeFieldAt..at + SizeFieldEnd])
  }

  /** The ten bytes of a size field hold at most ten decimal digits. */
  lemma TenDigits()
    ensures Pow10(SizeFieldEnd - SizeFieldAt) == 10_000_000_000
  {
  }

  /** A 16-byte name compare at `at`; it fails if it reaches the end of the buffer. */
  predicate NameIs(buf: seq<byte>, at: nat, name: seq<byte>)
    requires |name| == NameLength
  {
    at + NameLength <= |buf| && buf[at..at + NameLength] == name
  }

  function EvenDown(n: nat): (r: nat)
    ensures r <= n && r % 2 == 0 && n - r < 2
  {
    n - n % 2
  }

  function EvenUp(n: nat): (r: nat)
    ensures r >= n && r % 2 == 0 && r - n < 2
  {
    n + n % 2
  }

  /** A member record is placed as its header at `fileOffset - 60` says. */
  ghost predicate Placed(buf: seq<byte>, m: Member)
  {
    m.fileOffset >= HeaderSize && m.fileOffset + m.objSize <= |buf|
    && m.objSize == SizeField(buf, m.fileOffset - HeaderSize)
    && m.obj == buf[m.fileOffset..m.fileOffset + m.objSize]
  }

  /** Copies the member whose header is at `at` (size field, then content). */
  function ReadMember(buf: seq<byte>, at: nat): (r: Result<Member, ArchiveError>)
    requires at + HeaderSize <= |buf|
    ensures r.Ok? ==> r.value.fileOffset == at + HeaderSize
    ensures r.Err? ==> r.error == ContentOverrun(at)
  {
    var obj := at + HeaderSize;
    var size := SizeField(buf, at);
    if obj + size > |buf| then Err(ContentOverrun(at))
    else Ok(Member(buf[obj..obj + size], size, obj))
  }

  /**
   * The record copied for the header at `at` holds exactly the bytes its size
   * field declares, right after the header; a content that would run past
   * the buffer is the only failure.
   */
  lemma ReadMemberPlaced(buf: seq<byte>, at: nat)
    requires at + HeaderSize <= |buf|
    ensures ReadMember(buf, at).Err? <==> at + HeaderSize + SizeField(buf, at) > |buf|
    ensures ReadMember(buf, at).Ok? ==> Placed(buf, ReadMember(buf, at).value)
  {
    if ReadMember(buf, at).Ok? {
      var m := ReadMember(buf, at).value;
      assert m.fileOffset - HeaderSize == at;
      assert m.obj == buf[m.fileOffset..m.fileOffset + m.objSize];
    }
  }

  /**
   * A special member at `at`, recognised by its name field; its terminator is
   * checked and a bad one is fatal.
   */
  function SpecialAt(buf: seq<byte>, at: nat, name: seq<byte>): (r: Result<Option<Member>, ArchiveError>)
    requires |name| == NameLength
    ensures r == Ok(None) <==> !NameIs(buf, at, name)
    ensures r.Ok? && r.value.Some? ==>
      Placed(buf, r.value.value) && r.value.value.fileOffset == at + HeaderSize
      && buf[at + SizeFieldEnd..at + HeaderSize] == HeaderEnd
    ensures r.Err? ==> NameIs(buf, at, name) && !r.error.NotAnArchive?
    ensures r.Err? && at + HeaderSize <= |buf| && buf[at + SizeFieldEnd..at + HeaderSize] != HeaderEnd ==>
      r.error == IllegalHeader(at)
  {
    if !NameIs(buf, at, name) then Ok(None)
    else if at + HeaderSize > |buf| then Err(HeaderOverrun(at))
    else if buf[at + SizeFieldEnd..at + HeaderSize] != HeaderEnd then Err(IllegalHeader(at))
    else match ReadMember(buf, at)
      case Ok(m) => Ok(Some(m))
      case Err(e) => Err(e)
  }

  /** Where the content of the last record ends: the next header, or `start` when there are no records. */
  function NextHeader(start: nat, ms: seq<Member>): nat
  {
    if ms == [] then start else ms[|ms| - 1].fileOffset + ms[|ms| - 1].objSize
  }

  /**
   * The regular-member scan from `at`: a header is read while more than 60
   * bytes remain, the next header follows the content with no padding, and
   * the terminator is never looked at.
   */
  function Scan(buf: seq<byte>, at: nat): (r: Result<seq<Member>, ArchiveError>)
    decreases |buf| - at
    ensures r.Err? ==> r.error.ContentOverrun?
  {
    if at + HeaderSize >= |buf| then Ok([])
    else match ReadMember(buf, at)
      case Err(e) => Err(e)
      case Ok(m) =>
        match Scan(buf, m.fileOffset + m.objSize)
        case Err(e) => Err(e)
        case Ok(rest) => Ok([m] + rest)
  }

  /**
   * The records of a successful scan: each holds the bytes its size field
   * declares and was read from a header with more than 60 bytes after it,
   * the first header is at `at`, each next header follows the previous
   * content at exactly offset + size, and the scan ends only when no more
   * than 60 bytes remain.
   */
  lemma ScanLayout(buf: seq<byte>, at: nat)
    requires Scan(buf, at).Ok?
    ensures var ms := Scan(buf, at).value;
      (forall i :: 0 <= i < |ms| ==> Placed(buf, ms[i]) && ms[i].fileOffset < |buf|)
      && (ms != [] ==> ms[0].fileOffset == at + HeaderSize)
      && (forall i :: 0 < i < |ms| ==> ms[i].fileOffset == ms[i - 1].fileOffset + ms[i - 1].objSize + HeaderSize)
      && NextHeader(at, ms) + HeaderSize >= |buf|
  {
    ScanPlaced(buf, at);
    ScanSpacing(buf, at);
    ScanEnds(buf, at);
  }

  lemma {:induction false} ScanPlaced(buf: seq<byte>, at: nat)
    requires Scan(buf, at).Ok?
    decreases |buf| - at
    ensures forall i :: 0 <= i < |Scan(buf, at).value| ==>
      Placed(buf, Scan(buf, at).value[i]) && Scan(buf, at).value[i].fileOffset < |buf|
  {
    if at + HeaderSize < |buf| {
      ReadMemberPlaced(buf, at);
      var m := ReadMember(buf, at).value;
      var next := m.fileOffset + m.objSize;
      ScanPlaced(buf, next);
      var ms, rest := Scan(buf, at).value, Scan(buf, next).value;
      assert ms == [m] + rest;
      forall i | 0 <= i < |ms|
        ensures Placed(buf, ms[i]) && ms[i].fileOffset < |buf|
      {
        if i > 0 {
          assert ms[i] == rest[i - 1];
        }
      }
    }
  }

  lemma {:induction false} ScanSpacing(buf: seq<byte>, at: nat)
    requires Scan(buf, at).Ok?
    decreases |buf| - at
    ensures var ms := Scan(buf, at).value;
      (ms != [] ==> ms[0].fileOffset == at + HeaderSize)
      && (forall i :: 0 < i < |ms| ==> ms[i].fileOffset == ms[i - 1].fileOffset + ms[i - 1].objSize + HeaderSize)
  {
    if at + HeaderSize < |buf| {
      var m := ReadMember(buf, at).value;
      var next := m.fileOffset + m.objSize;
      ScanSpacing(buf, next);
      var rest := Scan(buf, next).value;
      var ms := [m] + rest;
      assert Scan(buf, at).value == ms;
      forall i | 0 < i < |ms|
        ensures ms[i].fileOffset == ms[i - 1].fileOffset + ms[i - 1].objSize + HeaderSize
      {
        assert ms[i] == rest[i - 1];
        if i > 1 {
          assert ms[i - 1] == rest[i - 2];
        }
      }
    }
  }

  lemma {:induction false} ScanEnds(buf: seq<byte>, at: nat)
    requires Scan(buf, at).Ok?
    decreases |buf| - at
    ensures NextHeader(at, Scan(buf, at).value) + HeaderSize >= |buf|
  {
    if at + HeaderSize < |buf| {
      var m := ReadMember(buf, at).value;
      var next := m.fileOffset + m.objSize;
      ScanEnds(buf, next);
      var rest := Scan(buf, next).value;
      assert Scan(buf, at).value == [m] + rest;
      if rest != [] {
        assert ([m] + rest)[|rest|] == rest[|rest| - 1];
      }
    }
  }

  /** Where the "//" header is looked for: after the "/" content rounded down to even, else at 8. */
  function AfterSymbolTable(first: Option<Member>): nat
  {
    match first
    case Some(m) => m.fileOffset + EvenDown(m.objSize)
    case None => MagicLength
  }

  /** Where the regular scan starts: after the "//" content rounded up to even, else where "//" was looked for. */
  function AfterLongNames(at: nat, second: Option<Member>): nat
  {
    match second
    case Some(m) => m.fileOffset + EvenUp(m.objSize)
    case None => at
  }

  /** `arlib::ParseArchive(char*, size_t)` as a value: the records it would store, or why it stops. */
  function Decode(buf: seq<byte>): (r: Result<Archive, ArchiveError>)
    ensures r == Err(NotAnArchive) <==> |buf| < MagicLength || buf[..MagicLength] != ArMagic
    ensures r.Ok? ==> (r.value.symbolTable.Some? <==> NameIs(buf, MagicLength, SymbolTableName))
  {
    if |buf| < MagicLength || buf[..MagicLength] != ArMagic then Err(NotAnArchive)
    else match SpecialAt(buf, MagicLength, SymbolTableName)
      case Err(e) => Err(e)
      case Ok(first) =>
        var secondAt := AfterSymbolTable(first);
        match SpecialAt(buf, secondAt, LongNamesName)
        case Err(e) => Err(e)
        case Ok(second) =>
          match Scan(buf, AfterLongNames(secondAt, second))
          case Err(e) => Err(e)
          case Ok(ms) => Ok(Archive(first, second, ms))
  }

  function LongNamesAt(a: Archive): nat
  {
    AfterSymbolTable(a.symbolTable)
  }

  function RegularAt(a: Archive): nat
  {
    AfterLongNames(LongNamesAt(a), a.longNames)
  }

  /**
   * The layout of a decoded archive: the symbol table's header is right after
   * the magic, the "//" header follows the symbol table's content rounded down
   * to even, the first regular header follows the "//" content rounded up to
   * even, and every record holds exactly the bytes its size field declares.
   */
  lemma DecodedLayout(buf: seq<byte>)
    requires Decode(buf).Ok?
    ensures var a := Decode(buf).value;
      (a.symbolTable.Some? ==> a.symbolTable.value.fileOffset == MagicLength + HeaderSize
                               && Placed(buf, a.symbolTable.value))
      && (a.longNames.Some? ==> a.longNames.value.fileOffset == LongNamesAt(a) + HeaderSize
                                && Placed(buf, a.longNames.value)
                                && NameIs(buf, LongNamesAt(a), LongNamesName))
      && (a.longNames.None? ==> !NameIs(buf, LongNamesAt(a), LongNamesName))
      && (a.members != [] ==> a.members[0].fileOffset == RegularAt(a) + HeaderSize)
      && (forall i :: 0 <= i < |a.members| ==>
            Placed(buf, a.members[i]) && |a.members[i].obj| == a.members[i].objSize && a.members[i].fileOffset < |buf|)
      && (forall i :: 0 < i < |a.members| ==>
            a.members[i].fileOffset == a.members[i - 1].fileOffset + a.members[i - 1].objSize + HeaderSize)
  {
    var a := Decode(buf).value;
    var first := SpecialAt(buf, MagicLength, SymbolTableName);
    assert first.Ok? && first.value == a.symbolTable;
    var second := SpecialAt(buf, LongNamesAt(a), LongNamesName);
    assert second.Ok? && second.value == a.longNames;
    var scan := Scan(buf, RegularAt(a));
    assert scan.Ok? && scan.value == a.members;
    ScanLayout(buf, RegularAt(a));
    forall i | 0 <= i < |a.members|
      ensures Placed(buf, a.members[i]) && |a.members[i].obj| == a.members[i].objSize && a.members[i].fileOffset < |buf|
    {
      assert Placed(buf, a.members[i]);
    }
  }

  /** A "/" member whose terminator is not "`\n" stops the decoder with IllegalHeader. */
  lemma SymbolTableTerminatorChecked(buf: seq<byte>)
    requires |buf| >= MagicLength + HeaderSize && buf[..MagicLength] == ArMagic
    requires NameIs(buf, MagicLength, SymbolTableName)
    requires buf[MagicLength + SizeFieldEnd..MagicLength + HeaderSize] != HeaderEnd
    ensures Decode(buf) == Err(IllegalHeader(MagicLength))
  {
  }

  /**
   * A "//" member whose terminator is not "`\n" stops the decoder with
   * IllegalHeader, whether or not a "/" member came before it.
   */
  lemma LongNamesTerminatorChecked(buf: seq<byte>, at: nat)
    requires |buf| >= MagicLength && buf[..MagicLength] == ArMagic
    requires SpecialAt(buf, MagicLength, SymbolTableName).Ok?
    requires at == AfterSymbolTable(SpecialAt(buf, MagicLength, SymbolTableName).value)
    requires NameIs(buf, at, LongNamesName) && at + HeaderSize <= |buf|
    requires buf[at + SizeFieldEnd..at + HeaderSize] != HeaderEnd
    ensures Decode(buf) == Err(IllegalHeader(at))
  {
  }

  /** The decoder never reports a bad terminator on a regular member. */
  lemma RegularTerminatorsIgnored(buf: seq<byte>, at: nat)
    requires Decode(buf) == Err(IllegalHeader(at))
    ensures at == MagicLength
            || (SpecialAt(buf, MagicLength, SymbolTableName).Ok?
                && at == AfterSymbolTable(SpecialAt(buf, MagicLength, SymbolTableName).value))
  {
  }

  /**
   * A field holding decimal digits padded with blanks, as `ar` writes it, is
   * read as the value of those digits; an all-blank field reads as 0.
   */
  lemma {:induction false} PaddedFieldValue(digits: seq<byte>, pad: seq<byte>)
    requires forall i :: 0 <= i < |digits| ==> IsDigit(digits[i])
    requires forall i :: 0 <= i < |pad| ==> pad[i] == 0x20
    ensures ParseDecimal(digits + pad) == DecimalValue(digits)
  {
    if digits != [] {
      assert !IsSpace(digits[0]);
      assert SkipSpaces(digits + pad) == digits + pad;
      DigitPrefixOfPadded(digits, pad);
    } else {
      assert digits + pad == pad;
      BlanksSkipped(pad);
    }
  }

  /** A field of blanks only is skipped entirely. */
  lemma {:induction false} BlanksSkipped(pad: seq<byte>)
    requires forall i :: 0 <= i < |pad| ==> pad[i] == 0x20
    ensures SkipSpaces(pad) == []
  {
    if pad != [] {
      BlanksSkipped(pad[1..]);
    }
  }

  lemma {:induction false} DigitPrefixOfPadded(digits: seq<byte>, pad: seq<byte>)
    requires forall i :: 0 <= i < |digits| ==> IsDigit(digits[i])
    requires forall i :: 0 <= i < |pad| ==> pad[i] == 0x20
    ensures DigitPrefix(digits + pad) == digits
  {
    if digits == [] {
      assert pad == [] || !IsDigit(pad[0]);
    } else {
      assert (digits + pad)[1..] == digits[1..] + pad;
      DigitPrefixOfPadded(digits[1..], pad);
    }
  }
}
