/**
 * The part of `arlib::ReplaceFnid` (src/main.cpp) that reads one archive
 * member as a big-endian ELF-64 image: it checks the magic, finds the first
 * section whose name begins with ".strtab", and scans that section byte by
 * byte for a requested symbol name.
 *
 * Field offsets follow the `ElfHeader` and `SectionHeader` structs of
 * src/elf.h. Where the source would read outside the member's content the
 * model reports a `Fault` instead.
 */
module Elf {
  import opened Wrappers
  import opened Bytes

  /** 0x7F 'E' 'L' 'F' */
  const ElfMagic: seq<byte> := [0x7F, 0x45, 0x4C, 0x46]
  /** ".strtab" */
  const StrtabPrefix: seq<byte> := [0x2E, 0x73, 0x74, 0x72, 0x74, 0x61, 0x62]

  const ElfHeaderSize := 64
  const ShOffAt := 40       // e_shoff, 8 bytes
  const ShNumAt := 60       // e_shnum, 2 bytes
  const ShStrNdxAt := 62    // e_shstrndx, 2 bytes
  const SectionHeaderSize := 64
  const ShNameAt := 0       // sh_name, 4 bytes
  const ShOffsetAt := 24    // sh_offset, 8 bytes
  const ShSizeAt := 32      // sh_size, 8 bytes

  /** Where the source would read outside the member's content. */
  datatype Fault =
    | HeaderOutside
    | SectionHeaderOutside(index: nat)
    | SectionNameOutside(index: nat)
    | StringTableOutside(index: nat)

  /** What the search for the symbol string table finds in one member. */
  datatype Location =
    | NotElf
    | NoStringTable
    | StringTable(index: nat, start: nat, end: nat)
    | Unreadable(fault: Fault)

  /** A big-endian field of `width` bytes at `at`. */
  function Field(obj: seq<byte>, at: nat, width: nat): nat
    requires at + width <= |obj|
  {
    if width == 0 then 0 else 256 * Field(obj, at, width - 1) + obj[at + width - 1]
  }

  /** `Field` is the big-endian value of the field's bytes. */
  lemma {:induction false} FieldIsBigEndian(obj: seq<byte>, at: nat, width: nat)
    requires at + width <= |obj|
    ensures Field(obj, at, width) == BigEndianValue(obj[at..at + width])
  {
    if width > 0 {
      FieldIsBigEndian(obj, at, width - 1);
      var bs := obj[at..at + width];
      assert bs[..|bs| - 1] == obj[at..at + width - 1];
    }
  }

  predicate IsElf(obj: seq<byte>)
  {
    |obj| >= 4 && obj[..4] == ElfMagic
  }

  function SectionHeaderAt(shoff: nat, i: nat): nat
  {
    shoff + SectionHeaderSize * i
  }

  /** Section i's `sh_name` lies in the member and its name starts no further than the end of the content. */
  predicate NameReadable(obj: seq<byte>, shoff: nat, shstr: nat, i: nat)
  {
    var h := SectionHeaderAt(shoff, i);
    h + 4 <= |obj| && shstr + Field(obj, h + ShNameAt, 4) <= |obj|
  }

  /** Section i's name begins with ".strtab" (`strncmp(name, ".strtab", 7) == 0`). */
  predicate NamedStrtab(obj: seq<byte>, shoff: nat, shstr: nat, i: nat)
  {
    NameReadable(obj, shoff, shstr, i)
    && var at := shstr + Field(obj, SectionHeaderAt(shoff, i) + ShNameAt, 4);
    at + |StrtabPrefix| <= |obj| && obj[at..at + |StrtabPrefix|] == StrtabPrefix
  }

  /** The section search from index `i` on: the first section named ".strtab...". */
  function FindStrtab(obj: seq<byte>, shoff: nat, shstr: nat, shnum: nat, i: nat): (r: Location)
    decreases shnum - i
    ensures !r.NotElf?
    ensures r.StringTable? ==> r.start <= r.end <= |obj|
  {
    if i >= shnum then NoStringTable
    else
      var h := SectionHeaderAt(shoff, i);
      if h + 4 > |obj| then Unreadable(SectionHeaderOutside(i))
      else if shstr + Field(obj, h + ShNameAt, 4) > |obj| then Unreadable(SectionNameOutside(i))
      else if NamedStrtab(obj, shoff, shstr, i) then
        if h + ShSizeAt + 8 > |obj| then Unreadable(SectionHeaderOutside(i))
        else
          var start := Field(obj, h + ShOffsetAt, 8);
          var size := Field(obj, h + ShSizeAt, 8);
          if start + size > |obj| then Unreadable(StringTableOutside(i))
          else StringTable(i, start, start + size)
      else FindStrtab(obj, shoff, shstr, shnum, i + 1)
  }

  /** No section in [from, to) has a ".strtab..." name, and every one of their names could be read. */
  ghost predicate NoneNamedStrtab(obj: seq<byte>, shoff: nat, shstr: nat, from: nat, to: nat)
  {
    forall j :: from <= j < to ==> NameReadable(obj, shoff, shstr, j) && !NamedStrtab(obj, shoff, shstr, j)
  }

  /**
   * The search finds the lowest-indexed section from `i` on whose name begins
   * with ".strtab", reports no table only when every section was read and none
   * qualifies, and reports a fault only at a section it reached.
   */
  lemma FindStrtabFindsFirst(obj: seq<byte>, shoff: nat, shstr: nat, shnum: nat, i: nat)
    ensures var r := FindStrtab(obj, shoff, shstr, shnum, i);
      !r.NotElf?
      && (r.StringTable? ==>
            i <= r.index < shnum && NamedStrtab(obj, shoff, shstr, r.index)
            && NoneNamedStrtab(obj, shoff, shstr, i, r.index)
            && SectionHeaderAt(shoff, r.index) + ShSizeAt + 8 <= |obj|
            && r.start == Field(obj, SectionHeaderAt(shoff, r.index) + ShOffsetAt, 8)
            && r.end == r.start + Field(obj, SectionHeaderAt(shoff, r.index) + ShSizeAt, 8)
            && r.end <= |obj|)
      && (r.NoStringTable? ==> NoneNamedStrtab(obj, shoff, shstr, i, shnum))
      && (r.Unreadable? ==>
            !r.fault.HeaderOutside? && i <= r.fault.index < shnum
            && NoneNamedStrtab(obj, shoff, shstr, i, r.fault.index))
  {
    FindStrtabTable(obj, shoff, shstr, shnum, i);
    FindStrtabNone(obj, shoff, shstr, shnum, i);
    FindStrtabFault(obj, shoff, shstr, shnum, i);
  }

  /** A section whose name was read and is not ".strtab..." extends a run of such sections downwards. */
  lemma NoneNamedStrtabStep(obj: seq<byte>, shoff: nat, shstr: nat, i: nat, to: nat)
    requires NameReadable(obj, shoff, shstr, i) && !NamedStrtab(obj, shoff, shstr, i)
    requires NoneNamedStrtab(obj, shoff, shstr, i + 1, to)
    ensures NoneNamedStrtab(obj, shoff, shstr, i, to)
  {
  }

  lemma {:induction false} FindStrtabTable(obj: seq<byte>, shoff: nat, shstr: nat, shnum: nat, i: nat)
    decreases shnum - i
    ensures var r := FindStrtab(obj, shoff, shstr, shnum, i);
      r.StringTable? ==>
        i <= r.index < shnum && NamedStrtab(obj, shoff, shstr, r.index)
        && NoneNamedStrtab(obj, shoff, shstr, i, r.index)
        && SectionHeaderAt(shoff, r.index) + ShSizeAt + 8 <= |obj|
        && r.start == Field(obj, SectionHeaderAt(shoff, r.index) + ShOffsetAt, 8)
        && r.end == r.start + Field(obj, SectionHeaderAt(shoff, r.index) + ShSizeAt, 8)
        && r.end <= |obj|
  {
    if i < shnum && NameReadable(obj, shoff, shstr, i) && !NamedStrtab(obj, shoff, shstr, i) {
      FindStrtabTable(obj, shoff, shstr, shnum, i + 1);
      var r := FindStrtab(obj, shoff, shstr, shnum, i + 1);
      if r.StringTable? {
        NoneNamedStrtabStep(obj, shoff, shstr, i, r.index);
      }
    }
  }

  lemma {:induction false} FindStrtabNone(obj: seq<byte>, shoff: nat, shstr: nat, shnum: nat, i: nat)
    decreases shnum - i
    ensures FindStrtab(obj, shoff, shstr, shnum, i).NoStringTable? ==> NoneNamedStrtab(obj, shoff, shstr, i, shnum)
  {
    if i < shnum && NameReadable(obj, shoff, shstr, i) && !NamedStrtab(obj, shoff, shstr, i) {
      FindStrtabNone(obj, shoff, shstr, shnum, i + 1);
      if FindStrtab(obj, shoff, shstr, shnum, i + 1).NoStringTable? {
        NoneNamedStrtabStep(obj, shoff, shstr, i, shnum);
      }
    }
  }

  lemma {:induction false} FindStrtabFault(obj: seq<byte>, shoff: nat, shstr: nat, shnum: nat, i: nat)
    decreases shnum - i
    ensures var r := FindStrtab(obj, shoff, shstr, shnum, i);
      !r.NotElf?
      && (r.Unreadable? ==>
            !r.fault.HeaderOutside? && i <= r.fault.index < shnum
            && NoneNamedStrtab(obj, shoff, shstr, i, r.fault.index))
  {
    if i < shnum && NameReadable(obj, shoff, shstr, i) && !NamedStrtab(obj, shoff, shstr, i) {
      FindStrtabFault(obj, shoff, shstr, shnum, i + 1);
      var r := FindStrtab(obj, shoff, shstr, shnum, i + 1);
      if r.Unreadable? {
        NoneNamedStrtabStep(obj, shoff, shstr, i, r.fault.index);
      }
    }
  }

  /** The section-header offset, section count and the name table's offset of an ELF member. */
  function ShOff(obj: seq<byte>): nat
    requires |obj| >= ElfHeaderSize
  {
    Field(obj, ShOffAt, 8)
  }

  function ShNum(obj: seq<byte>): nat
    requires |obj| >= ElfHeaderSize
  {
    Field(obj, ShNumAt, 2)
  }

  function ShStrNdx(obj: seq<byte>): nat
    requires |obj| >= ElfHeaderSize
  {
    Field(obj, ShStrNdxAt, 2)
  }

  /** Where the section-name table's `sh_offset` lies. */
  function ShStrOffsetAt(obj: seq<byte>): nat
    requires |obj| >= ElfHeaderSize
  {
    SectionHeaderAt(ShOff(obj), ShStrNdx(obj)) + ShOffsetAt
  }

  /** Where the string table of one member is, as the first loop of `ReplaceFnid` finds it. */
  function Locate(obj: seq<byte>): (r: Location)
    ensures r.NotElf? <==> !IsElf(obj)
    ensures r.StringTable? ==> r.start <= r.end <= |obj|
  {
    if !IsElf(obj) then NotElf
    else if |obj| < ElfHeaderSize then Unreadable(HeaderOutside)
    else if ShStrOffsetAt(obj) + 8 > |obj| then Unreadable(SectionHeaderOutside(ShStrNdx(obj)))
    else FindStrtab(obj, ShOff(obj), Field(obj, ShStrOffsetAt(obj), 8), ShNum(obj), 0)
  }

  /**
   * The located table is the lowest-indexed section, resolved through
   * `e_shstrndx`, whose name begins with ".strtab"; its byte range comes from
   * that section's `sh_offset` and `sh_size`.
   */
  lemma LocatePicksFirstStrtab(obj: seq<byte>)
    requires Locate(obj).StringTable?
    ensures IsElf(obj) && |obj| >= ElfHeaderSize && ShStrOffsetAt(obj) + 8 <= |obj|
    ensures var r := Locate(obj);
      var shstr := Field(obj, ShStrOffsetAt(obj), 8);
      r.index < ShNum(obj)
      && NamedStrtab(obj, ShOff(obj), shstr, r.index)
      && (forall j :: 0 <= j < r.index ==> !NamedStrtab(obj, ShOff(obj), shstr, j))
      && SectionHeaderAt(ShOff(obj), r.index) + ShSizeAt + 8 <= |obj|
      && r.start == Field(obj, SectionHeaderAt(ShOff(obj), r.index) + ShOffsetAt, 8)
      && r.end - r.start == Field(obj, SectionHeaderAt(ShOff(obj), r.index) + ShSizeAt, 8)
      && r.start <= r.end <= |obj|
  {
    assert IsElf(obj) && |obj| >= ElfHeaderSize && ShStrOffsetAt(obj) + 8 <= |obj|;
    var shstr := Field(obj, ShStrOffsetAt(obj), 8);
    assert Locate(obj) == FindStrtab(obj, ShOff(obj), shstr, ShNum(obj), 0);
    FindStrtabTable(obj, ShOff(obj), shstr, ShNum(obj), 0);
  }

  /** Reads `width` bytes at `at` the way the source does: a native load, then `SwapEndian`. */
  method ReadField(obj: seq<byte>, at: nat, width: nat) returns (v: nat)
    requires at + width <= |obj|
    ensures v == Field(obj, at, width)
  {
    var native := obj[at..at + width];
    v := SwapEndian(width, LittleEndianValue(native));
    SwapOfNativeLoad(native);
    FieldIsBigEndian(obj, at, width);
  }

  /** The first loop of `ReplaceFnid`: magic check, then the section search with `break`. */
  method FindStringTable(obj: seq<byte>) returns (r: Location)
    ensures r == Locate(obj)
  {
    if !(|obj| >= 4 && obj[0] == 0x7F && obj[1] == 0x45 && obj[2] == 0x4C && obj[3] == 0x46) {
      assert !IsElf(obj);
      return NotElf;
    }
    assert IsElf(obj);
    if |obj| < ElfHeaderSize {
      return Unreadable(HeaderOutside);
    }
    var shoff := ReadField(obj, ShOffAt, 8);
    var shstrndx := ReadField(obj, ShStrNdxAt, 2);
    var e := SectionHeaderAt(shoff, shstrndx) + ShOffsetAt;
    if e + 8 > |obj| {
      return Unreadable(SectionHeaderOutside(shstrndx));
    }
    var shstr := ReadField(obj, e, 8);
    var shnum := ReadField(obj, ShNumAt, 2);
    r := SearchSections(obj, shoff, shstr, shnum);
  }

  /** The section loop: the first section whose name begins with ".strtab", then `break`. */
  method SearchSections(obj: seq<byte>, shoff: nat, shstr: nat, shnum: nat) returns (r: Location)
    ensures r == FindStrtab(obj, shoff, shstr, shnum, 0)
  {
    var i := 0;
    while i < shnum
      invariant 0 <= i <= shnum
      invariant FindStrtab(obj, shoff, shstr, shnum, i) == FindStrtab(obj, shoff, shstr, shnum, 0)
      decreases shnum - i
    {
      var h := SectionHeaderAt(shoff, i);
      if h + 4 > |obj| {
        return Unreadable(SectionHeaderOutside(i));
      }
      var nameOffset := ReadField(obj, h + ShNameAt, 4);
      var name := shstr + nameOffset;
      if name > |obj| {
        return Unreadable(SectionNameOutside(i));
      }
      if name + |StrtabPrefix| <= |obj| && obj[name..name + |StrtabPrefix|] == StrtabPrefix {
        if h + ShSizeAt + 8 > |obj| {
          return Unreadable(SectionHeaderOutside(i));
        }
        var start := ReadField(obj, h + ShOffsetAt, 8);
        var size := ReadField(obj, h + ShSizeAt, 8);
        if start + size > |obj| {
          return Unreadable(StringTableOutside(i));
        }
        return StringTable(i, start, start + size);
      }
      i := i + 1;
    }
    return NoStringTable;
  }

  /** The byte at `i`, where the byte just past the content is the NUL a `std::string` keeps there. */
  function ByteAt(obj: seq<byte>, i: nat): byte
    requires i <= |obj|
  {
    if i == |obj| then 0 else obj[i]
  }

  /**
   * `strcmp(pos, name.c_str()) == 0` at position p: the name's bytes, then a
   * NUL. This is `strcmp` for names without a NUL, which are the only names
   * the list parser yields (`FnidList.ParsedNamesClean`).
   */
  predicate Matches(obj: seq<byte>, p: nat, name: seq<byte>)
    requires p + |name| <= |obj|
  {
    obj[p..p + |name|] == name && ByteAt(obj, p + |name|) == 0
  }

  /** The first position in [from, end - |name|] where `name` matches. */
  function FirstMatch(obj: seq<byte>, from: nat, end: nat, name: seq<byte>): (r: Option<nat>)
    requires end <= |obj|
    decreases end - from
    ensures r.Some? ==>
      from <= r.value && r.value + |name| <= end && Matches(obj, r.value, name)
      && forall q :: from <= q < r.value ==> !Matches(obj, q, name)
    ensures r.None? ==> forall q :: from <= q && q + |name| <= end ==> !Matches(obj, q, name)
  {
    if from + |name| > end then None
    else if Matches(obj, from, name) then Some(from)
    else FirstMatch(obj, from + 1, end, name)
  }

  /** The inner loop of `ReplaceFnid`: scan the table byte by byte and stop at the first hit. */
  method FindSymbol(obj: seq<byte>, start: nat, end: nat, name: seq<byte>) returns (found: Option<nat>)
    requires start <= end <= |obj|
    ensures found == FirstMatch(obj, start, end, name)
  {
    var pos := start;
    while pos + |name| <= end
      invariant start <= pos
      invariant FirstMatch(obj, pos, end, name) == FirstMatch(obj, start, end, name)
      decreases end - pos
    {
      if obj[pos..pos + |name|] == name && ByteAt(obj, pos + |name|) == 0 {
        return Some(pos);
      }
      pos := pos + 1;
    }
    return None;
  }

  /** A name followed by anything but NUL does not match there: "foo" is not found in "foobar\0". */
  lemma LongerEntryDoesNotMatch(obj: seq<byte>, p: nat, name: seq<byte>)
    requires p + |name| < |obj| && obj[p..p + |name|] == name && obj[p + |name|] != 0
    ensures !Matches(obj, p, name)
  {
  }

  /** The tail of a longer entry matches: "foo" is found inside "barfoo\0". */
  lemma SuffixOfEntryMatches(obj: seq<byte>, p: nat, head: seq<byte>, name: seq<byte>)
    requires p + |head| + |name| < |obj|
    requires obj[p..p + |head| + |name| + 1] == head + name + [0]
    ensures Matches(obj, p + |head|, name)
  {
    var q := p + |head|;
    forall k | 0 <= k < |name|
      ensures obj[q + k] == name[k]
    {
      assert obj[q + k] == obj[p..p + |head| + |name| + 1][|head| + k];
    }
    assert obj[q..q + |name|] == name;
    assert obj[q + |name|] == obj[p..p + |head| + |name| + 1][|head| + |name|];
  }
}
