/**
 * The command-line tool of src/main.cpp: `main` parses the archive, reads the
 * FNID list and patches the archive file in place; `GetExecutableName` gives
 * the program name shown in the usage line.
 */
module Tool {
  import opened Wrappers
  import opened Bytes
  import opened Archive
  import opened FnidList
  import opened Patch
  import opened ArLib

  /**
   * The archive file after one run of the tool on an archive whose bytes are
   * `archive` and an FNID list whose bytes are `list`. A fatal archive header
   * or a list line without a colon ends the run before any write; a file that
   * is not an archive leaves the member list empty, so nothing is written.
   */
  function Outcome(archive: seq<byte>, list: seq<byte>): (r: seq<byte>)
    ensures |r| == |archive|
  {
    if Decode(archive).Err? || Parse(list).Err? then archive
    else ApplyAll(archive, Plan(Decode(archive).value.members, Parse(list).value, |archive|).writes)
  }

  /**
   * `main` after its argument check: `ParseArchive`, whose answer is ignored,
   * then `ParseFnidList`, then `ReplaceFnid` on a fresh `arlib` state.
   */
  method Run(file: array<byte>, list: seq<byte>)
    modifies file
    ensures file[..] == Outcome(old(file[..]), list)
  {
    var archive := new Arlib();
    var parsed := archive.ParseArchive(file[..]);
    if parsed.Ok? {
      var fnidList := ParseFnidList(list);
      if fnidList.Ok? {
        OutcomeOfParsed(file[..], list, parsed.value, archive.archiveData);
        var _ := archive.ReplaceFnid(fnidList.value, file);
      }
    }
  }

  /** The records `ReplaceFnid` walks: those of a decoded archive, none for a file that is not an archive. */
  lemma OutcomeOfParsed(archive: seq<byte>, list: seq<byte>, isArchive: bool, members: seq<Member>)
    requires isArchive ==> Decode(archive).Ok? && members == Decode(archive).value.members
    requires !isArchive ==> Decode(archive) == Err(NotAnArchive) && members == []
    requires Parse(list).Ok?
    ensures Outcome(archive, list) == ApplyAll(archive, Plan(members, Parse(list).value, |archive|).writes)
  {
    if Decode(archive).Err? {
      assert Plan(members, Parse(list).value, |archive|).writes == [];
    }
  }

  /** A "/" member whose header does not end in "`\n" stops the tool before it writes anything. */
  lemma BadSymbolTableTerminatorWritesNothing(archive: seq<byte>, list: seq<byte>)
    requires |archive| >= MagicLength + HeaderSize && archive[..MagicLength] == ArMagic
    requires NameIs(archive, MagicLength, SymbolTableName)
    requires archive[MagicLength + SizeFieldEnd..MagicLength + HeaderSize] != HeaderEnd
    ensures Outcome(archive, list) == archive
  {
    SymbolTableTerminatorChecked(archive);
  }

  /** A "//" member whose header does not end in "`\n" stops the tool before it writes anything. */
  lemma BadLongNamesTerminatorWritesNothing(archive: seq<byte>, list: seq<byte>, at: nat)
    requires |archive| >= MagicLength && archive[..MagicLength] == ArMagic
    requires SpecialAt(archive, MagicLength, SymbolTableName).Ok?
    requires at == AfterSymbolTable(SpecialAt(archive, MagicLength, SymbolTableName).value)
    requires NameIs(archive, at, LongNamesName) && at + HeaderSize <= |archive|
    requires archive[at + SizeFieldEnd..at + HeaderSize] != HeaderEnd
    ensures Outcome(archive, list) == archive
  {
    LongNamesTerminatorChecked(archive, at);
  }

  /** When no request's name is in any member's string table, the archive file is left as it was. */
  lemma NoMatchLeavesFileUnchanged(archive: seq<byte>, list: seq<byte>)
    requires Decode(archive).Ok? && Parse(list).Ok?
    requires var ms := Decode(archive).value.members; var reqs := Parse(list).value;
      forall i, j :: 0 <= i < |ms| && 0 <= j < |reqs| ==> !Hit(ms[i], reqs[j])
    ensures Outcome(archive, list) == archive
  {
    NoHitNoWrites(Decode(archive).value.members, Parse(list).value, archive);
  }

  /** The members of a decoded archive lie in file order, at least 60 bytes apart. */
  lemma DecodedAscending(archive: seq<byte>)
    requires Decode(archive).Ok?
    ensures Ascending(Decode(archive).value.members)
  {
    var ms := Decode(archive).value.members;
    DecodedLayout(archive);
    ConsecutiveAscending(ms);
  }

  /**
   * After the run, the FNID place of a member holds the FNID of the last
   * request in the list whose name the member's string table holds, as long
   * as no member up to it stopped the run; later members do not disturb it.
   */
  lemma LastMatchWinsInFile(archive: seq<byte>, list: seq<byte>, a: Archive, reqs: seq<Request>, i: nat, j: nat)
    requires Decode(archive) == Ok(a) && Parse(list) == Ok(reqs)
    requires i < |a.members| && j < |reqs| && Plan(a.members[..i + 1], reqs, |archive|).fault.None?
    requires LastHeld(a.members[i], reqs, j)
    ensures Target(a.members[i]) + FnidWidth <= |archive|
    ensures Outcome(archive, list)[Target(a.members[i])..Target(a.members[i]) + FnidWidth]
            == BigEndianBytes(FnidWidth, reqs[j].fnid)
  {
    DecodedAscending(archive);
    RunLastMatchWins(a.members, reqs, archive, i, j);
  }

  /** A byte outside the FNID place of every decoded member is the same after the run. */
  lemma OtherBytesUnchanged(archive: seq<byte>, list: seq<byte>, b: nat)
    requires b < |archive|
    requires Decode(archive).Ok? ==> var ms := Decode(archive).value.members;
      forall i :: 0 <= i < |ms| ==> !(Target(ms[i]) <= b < Target(ms[i]) + FnidWidth)
    ensures Outcome(archive, list)[b] == archive[b]
  {
    if Decode(archive).Ok? && Parse(list).Ok? {
      RunKeepsOtherBytes(Decode(archive).value.members, Parse(list).value, archive, b);
    }
  }

  /** Where `strrchr` finds `c`: the last index holding it, or nothing. */
  function LastIndexOf(s: string, c: char): (r: Option<nat>)
    ensures r.None? <==> c !in s
    ensures r.Some? ==> r.value < |s| && s[r.value] == c && c !in s[r.value + 1..]
  {
    if s == [] then None
    else if s[|s| - 1] == c then Some(|s| - 1)
    else
      var r := LastIndexOf(s[..|s| - 1], c);
      assert s == s[..|s| - 1] + [s[|s| - 1]];
      if r.Some? then
        assert s[r.value + 1..] == s[..|s| - 1][r.value + 1..] + [s[|s| - 1]];
        r
      else r
  }

  /**
   * `GetExecutableName`: what follows the last '/', or, when there is none,
   * what follows the last '\'; the whole argument when it holds neither.
   */
  function GetExecutableName(arg: string): (r: string)
    ensures '/' in arg ==>
      |r| < |arg| && r == arg[|arg| - |r|..] && arg[|arg| - |r| - 1] == '/' && '/' !in r
    ensures '/' !in arg && '\\' in arg ==>
      |r| < |arg| && r == arg[|arg| - |r|..] && arg[|arg| - |r| - 1] == '\\' && '\\' !in r
    ensures '/' !in arg && '\\' !in arg ==> r == arg
  {
    match LastIndexOf(arg, '/')
    case Some(i) => arg[i + 1..]
    case None =>
      match LastIndexOf(arg, '\\')
      case Some(i) => arg[i + 1..]
      case None => arg
  }
}
