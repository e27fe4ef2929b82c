/**
 * The `arlib` namespace of src/main.cpp: the globals `s_firstEntry`,
 * `s_secondEntry` and `s_archiveData` become the fields of one `Arlib`
 * object; `ParseArchive(char*, size_t)` fills them from an archive buffer and
 * `ReplaceFnid` patches the archive file through `WriteFile`.
 */
module ArLib {
  import opened Wrappers
  import opened Bytes
  import opened Archive
  import opened Elf
  import opened FnidList
  import opened Patch

  /** The regular-member loop of `ParseArchive`: one record per header while more than 60 bytes remain. */
  method ScanMembers(buffer: seq<byte>, start: nat) returns (r: Result<seq<Member>, ArchiveError>)
    ensures r == Scan(buffer, start)
  {
    var bufferPos := start;
    var found: seq<Member> := [];
    PrependNothing(Scan(buffer, start));
    while bufferPos + HeaderSize < |buffer|
      invariant Prepend(found, Scan(buffer, bufferPos)) == Scan(buffer, start)
      decreases |buffer| - bufferPos
    {
      var member := ReadMember(buffer, bufferPos);
      if member.Err? {
        return Err(member.error);
      }
      var m := member.value;
      ScanStep(buffer, bufferPos, found, m);
      found := found + [m];
      bufferPos := m.fileOffset + m.objSize;
    }
    PrependAll(found, Scan(buffer, bufferPos));
    return Ok(found);
  }

  /** One more header read: its record moves from the rest of the scan to the records found. */
  lemma ScanStep(buffer: seq<byte>, at: nat, found: seq<Member>, m: Member)
    requires at + HeaderSize < |buffer| && ReadMember(buffer, at) == Ok(m)
    ensures Prepend(found, Scan(buffer, at)) == Prepend(found + [m], Scan(buffer, m.fileOffset + m.objSize))
  {
    assert Scan(buffer, at) == Prepend([m], Scan(buffer, m.fileOffset + m.objSize));
    PrependConcat(found, [m], Scan(buffer, m.fileOffset + m.objSize));
  }

  /**
   * The second loop of `ReplaceFnid` for one member: nothing to do for a
   * member that is not ELF or has no ".strtab" section, a fault for one whose
   * headers point outside it, otherwise the search of every request.
   */
  method PatchMember(m: Member, index: nat, fnidList: seq<Request>, file: array<byte>) returns (fault: Option<PatchFault>)
    modifies file
    ensures MemberWrites(m, index, fnidList, file.Length).Err? ==>
      fault == Some(MemberWrites(m, index, fnidList, file.Length).error) && file[..] == old(file[..])
    ensures MemberWrites(m, index, fnidList, file.Length).Ok? ==>
      fault == None && file[..] == ApplyAll(old(file[..]), MemberWrites(m, index, fnidList, file.Length).value)
  {
    var location := FindStringTable(m.obj);
    if location.StringTable? {
      var found := PatchRequests(m.obj, location.start, location.end, Target(m), fnidList, file);
      if !found {
        return Some(WriteOutsideFile(index, Target(m)));
      }
      return None;
    } else if location.Unreadable? {
      return Some(UnreadableElf(index, location.fault));
    }
    return None;
  }

  /**
   * The request loop for a member whose string table is [symbols, symbolsEnd):
   * for each request in list order, search the table and, at the first hit,
   * write the FNID at `target`. It answers false, having written nothing,
   * when a hit would write past the end of the file.
   */
  method PatchRequests(obj: seq<byte>, symbols: nat, symbolsEnd: nat, target: nat, fnidList: seq<Request>, file: array<byte>)
    returns (ok: bool)
    requires symbols <= symbolsEnd <= |obj|
    modifies file
    ensures ok <==> Hits(obj, symbols, symbolsEnd, fnidList) == [] || target + FnidWidth <= file.Length
    ensures !ok ==> file[..] == old(file[..])
    ensures ok ==> file[..] == ApplyAll(old(file[..]), WritesTo(target, Hits(obj, symbols, symbolsEnd, fnidList)))
  {
    var j := 0;
    ghost var hits: seq<Request> := [];
    while j < |fnidList|
      invariant j <= |fnidList|
      invariant hits == Hits(obj, symbols, symbolsEnd, fnidList[..j])
      invariant hits == [] || target + FnidWidth <= file.Length
      invariant file[..] == ApplyAll(old(file[..]), WritesTo(target, hits))
    {
      var request := fnidList[j];
      var found := FindSymbol(obj, symbols, symbolsEnd, request.name);
      HitsStep(obj, symbols, symbolsEnd, fnidList, j);
      if found.Some? {
        if target + FnidWidth > file.Length {
          HitsOfPrefix(obj, symbols, symbolsEnd, fnidList, j + 1);
          return false;
        }
        WritesToStep(old(file[..]), target, hits, request);
        WriteFnid(file, target, request.fnid);
        hits := hits + [request];
      }
      j := j + 1;
    }
    assert fnidList[..j] == fnidList;
    return true;
  }

  /** `SwapEndian` on the FNID, then `WriteFile` of its four bytes of memory. */
  method WriteFnid(file: array<byte>, offset: nat, fnid: uint32)
    requires offset + FnidWidth <= file.Length
    modifies file
    ensures file[..] == Apply(old(file[..]), Write(offset, fnid))
  {
    assert Pow256(FnidWidth) == 0x1_0000_0000;
    var nid := SwapEndian(FnidWidth, fnid);
    SwappedBytes(FnidWidth, fnid);
    WriteFile(file, offset, LittleEndianBytes(FnidWidth, nid));
  }

  lemma HitsStep(obj: seq<byte>, start: nat, end: nat, reqs: seq<Request>, j: nat)
    requires start <= end <= |obj| && j < |reqs|
    ensures Hits(obj, start, end, reqs[..j + 1])
      == if FirstMatch(obj, start, end, reqs[j].name).Some? then Hits(obj, start, end, reqs[..j]) + [reqs[j]]
         else Hits(obj, start, end, reqs[..j])
  {
    assert reqs[..j + 1][..j] == reqs[..j];
  }

  /** One more found request adds one write, made after the others. */
  lemma WritesToStep(file: seq<byte>, target: nat, hits: seq<Request>, r: Request)
    requires target + FnidWidth <= |file|
    ensures AllFit(WritesTo(target, hits + [r]), |file|)
    ensures ApplyAll(file, WritesTo(target, hits + [r]))
      == Apply(ApplyAll(file, WritesTo(target, hits)), Write(target, r.fnid))
  {
    assert (hits + [r])[..|hits|] == hits;
  }

  class Arlib {
    var firstEntry: Option<Member>
    var secondEntry: Option<Member>
    var archiveData: seq<Member>

    constructor ()
      ensures firstEntry == None && secondEntry == None && archiveData == []
    {
      firstEntry := None;
      secondEntry := None;
      archiveData := [];
    }

    /**
     * `arlib::ParseArchive(char*, size_t)`: false for a buffer that is not an
     * archive, a fatal error for a bad special header, otherwise the special
     * members are recorded and the regular members appended to `archiveData`.
     */
    method ParseArchive(buffer: seq<byte>) returns (r: Result<bool, ArchiveError>)
      modifies this
      ensures r == Ok(false) <==> Decode(buffer) == Err(NotAnArchive)
      ensures r == Ok(true) <==> Decode(buffer).Ok?
      ensures r.Err? ==> Decode(buffer) == Err(r.error)
      ensures Decode(buffer).Ok? ==>
        var a := Decode(buffer).value;
        firstEntry == (if a.symbolTable.Some? then a.symbolTable else old(firstEntry))
        && secondEntry == (if a.longNames.Some? then a.longNames else old(secondEntry))
        && archiveData == old(archiveData) + a.members
      ensures !Decode(buffer).Ok? ==>
        firstEntry == old(firstEntry) && secondEntry == old(secondEntry) && archiveData == old(archiveData)
    {
      if |buffer| < MagicLength || buffer[..MagicLength] != ArMagic {
        return Ok(false);
      }
      var first := SpecialAt(buffer, MagicLength, SymbolTableName);
      if first.Err? {
        return Err(first.error);
      }
      var secondAt := AfterSymbolTable(first.value);
      var second := SpecialAt(buffer, secondAt, LongNamesName);
      if second.Err? {
        return Err(second.error);
      }
      var members := ScanMembers(buffer, AfterLongNames(secondAt, second.value));
      if members.Err? {
        return Err(members.error);
      }
      if first.value.Some? {
        firstEntry := first.value;
      }
      if second.value.Some? {
        secondEntry := second.value;
      }
      archiveData := archiveData + members.value;
      return Ok(true);
    }

    /**
     * `arlib::ReplaceFnid`: the members in order, each patched by
     * `PatchMember`; the run stops at the first member that faults.
     */
    method ReplaceFnid(fnidList: seq<Request>, file: array<byte>) returns (fault: Option<PatchFault>)
      modifies file
      ensures fault == Plan(archiveData, fnidList, file.Length).fault
      ensures file[..] == ApplyAll(old(file[..]), Plan(archiveData, fnidList, file.Length).writes)
    {
      var i := 0;
      while i < |archiveData|
        invariant i <= |archiveData|
        invariant Plan(archiveData[..i], fnidList, file.Length).fault == None
        invariant file[..] == ApplyAll(old(file[..]), Plan(archiveData[..i], fnidList, file.Length).writes)
        decreases |archiveData| - i
      {
        var done := Plan(archiveData[..i], fnidList, file.Length).writes;
        var current := file[..];
        fault := PatchMember(archiveData[i], i, fnidList, file);
        assert archiveData[..i + 1][..i] == archiveData[..i];
        if fault.Some? {
          PlanFaultSticks(archiveData, fnidList, file.Length, i + 1);
          return;
        }
        var ws := MemberWrites(archiveData[i], i, fnidList, file.Length).value;
        ApplyAllAppend(old(file[..]), done, ws);
        i := i + 1;
      }
      assert archiveData[..i] == archiveData;
      return None;
    }
  }
}
