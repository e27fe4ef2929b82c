/**
 * What `arlib::ReplaceFnid` (src/main.cpp) does to the archive file, as a
 * value: the list of 4-byte writes it performs, in order, and the member at
 * which it would stop. Every write goes to the patched member's content
 * offset plus 0x6C and stores the request's FNID most significant byte first.
 */
module Patch {
  import opened Wrappers
  import opened Bytes
  import opened Archive
  import opened Elf
  import opened FnidList

  /** The FNID of a member lies 0x6C bytes into its content. */
  const FnidAt := 0x6C
  /** An FNID is a `uint32_t`. */
  const FnidWidth := 4

  /** One `WriteFile` call: four bytes at an offset of the archive file. */
  datatype Write = Write(offset: nat, value: uint32)

  /** Why the patcher stops before the end of the member list. */
  datatype PatchFault =
    | UnreadableElf(member: nat, fault: Fault)
    | WriteOutsideFile(member: nat, offset: nat)

  /** The writes, in the order they are made, and the fault that ends the run early, if any. */
  datatype PatchPlan = PatchPlan(writes: seq<Write>, fault: Option<PatchFault>)

  function Target(m: Member): nat
  {
    m.fileOffset + FnidAt
  }

  predicate Fits(w: Write, size: nat)
  {
    w.offset + FnidWidth <= size
  }

  predicate AllFit(ws: seq<Write>, size: nat)
  {
    forall k :: 0 <= k < |ws| ==> Fits(ws[k], size)
  }

  /** The file after one write: the value's big-endian bytes at the offset, every other byte as it was. */
  function Apply(file: seq<byte>, w: Write): (r: seq<byte>)
    requires Fits(w, |file|)
    ensures |r| == |file|
    ensures r[w.offset..w.offset + FnidWidth] == BigEndianBytes(FnidWidth, w.value)
    ensures forall i :: 0 <= i < |file| && !(w.offset <= i < w.offset + FnidWidth) ==> r[i] == file[i]
  {
    file[..w.offset] + BigEndianBytes(FnidWidth, w.value) + file[w.offset + FnidWidth..]
  }

  /** The file after a sequence of writes, made in order. */
  function ApplyAll(file: seq<byte>, ws: seq<Write>): (r: seq<byte>)
    requires AllFit(ws, |file|)
    ensures |r| == |file|
  {
    if ws == [] then file else Apply(ApplyAll(file, ws[..|ws| - 1]), ws[|ws| - 1])
  }

  /** A byte that no write covers keeps its value. */
  lemma {:induction false} ApplyAllFrame(file: seq<byte>, ws: seq<Write>, i: nat)
    requires AllFit(ws, |file|) && i < |file|
    requires forall k :: 0 <= k < |ws| ==> !(ws[k].offset <= i < ws[k].offset + FnidWidth)
    ensures ApplyAll(file, ws)[i] == file[i]
  {
    if ws != [] {
      ApplyAllFrame(file, ws[..|ws| - 1], i);
    }
  }

  /** Writing two batches one after the other is writing their concatenation. */
  lemma {:induction false} ApplyAllAppend(file: seq<byte>, ws: seq<Write>, more: seq<Write>)
    requires AllFit(ws + more, |file|)
    ensures AllFit(ws, |file|) && AllFit(more, |file|)
    ensures ApplyAll(file, ws + more) == ApplyAll(ApplyAll(file, ws), more)
    decreases |more|
  {
    assert forall k :: 0 <= k < |ws| ==> ws[k] == (ws + more)[k];
    assert forall k :: 0 <= k < |more| ==> more[k] == (ws + more)[|ws| + k];
    if more != [] {
      var init := more[..|more| - 1];
      assert (ws + more)[..|ws + more| - 1] == ws + init;
      ApplyAllAppend(file, ws, init);
    } else {
      assert ws + more == ws;
    }
  }

  /**
   * The four bytes at a write's place hold that write's value when no later
   * write overlaps them: with several writes to one place, the last one wins.
   */
  lemma {:induction false} LastWriteWins(file: seq<byte>, ws: seq<Write>, k: nat)
    requires AllFit(ws, |file|) && k < |ws|
    requires forall l :: k < l < |ws| ==>
      ws[l].offset + FnidWidth <= ws[k].offset || ws[k].offset + FnidWidth <= ws[l].offset
    ensures ApplyAll(file, ws)[ws[k].offset..ws[k].offset + FnidWidth] == BigEndianBytes(FnidWidth, ws[k].value)
    decreases |ws|
  {
    var n := |ws| - 1;
    var init := ws[..n];
    assert ApplyAll(file, ws) == Apply(ApplyAll(file, init), ws[n]);
    if k < n {
      assert init[k] == ws[k];
      LastWriteWins(file, init, k);
      ApplyElsewhere(ApplyAll(file, init), ws[n], ws[k].offset);
    }
  }

  /** A write leaves the four bytes at a place it does not overlap as they were. */
  lemma ApplyElsewhere(file: seq<byte>, w: Write, o: nat)
    requires Fits(w, |file|) && o + FnidWidth <= |file|
    requires w.offset + FnidWidth <= o || o + FnidWidth <= w.offset
    ensures Apply(file, w)[o..o + FnidWidth] == file[o..o + FnidWidth]
  {
    var r := Apply(file, w);
    assert r[o] == file[o] && r[o + 1] == file[o + 1] && r[o + 2] == file[o + 2] && r[o + 3] == file[o + 3];
  }

  /** The requests whose names the string table [start, end) holds, in request order. */
  function Hits(obj: seq<byte>, start: nat, end: nat, reqs: seq<Request>): (r: seq<Request>)
    requires start <= end <= |obj|
    ensures |r| <= |reqs|
  {
    if reqs == [] then []
    else
      var last := reqs[|reqs| - 1];
      Hits(obj, start, end, reqs[..|reqs| - 1])
        + (if FirstMatch(obj, start, end, last.name).Some? then [last] else [])
  }

  /** A request of the list whose name the string table [start, end) holds. */
  ghost predicate Held(obj: seq<byte>, start: nat, end: nat, reqs: seq<Request>, r: Request)
    requires start <= end <= |obj|
  {
    exists j :: 0 <= j < |reqs| && reqs[j] == r && FirstMatch(obj, start, end, reqs[j].name).Some?
  }

  /**
   * The found requests are exactly those of the list that the table holds:
   * every found request is held, and every held request is found.
   */
  lemma {:induction false} HitsAreMatches(obj: seq<byte>, start: nat, end: nat, reqs: seq<Request>)
    requires start <= end <= |obj|
    ensures forall k :: 0 <= k < |Hits(obj, start, end, reqs)| ==> Held(obj, start, end, reqs, Hits(obj, start, end, reqs)[k])
    ensures forall j :: 0 <= j < |reqs| && FirstMatch(obj, start, end, reqs[j].name).Some? ==>
      reqs[j] in Hits(obj, start, end, reqs)
    ensures (Hits(obj, start, end, reqs) == []) <==>
      forall j :: 0 <= j < |reqs| ==> FirstMatch(obj, start, end, reqs[j].name).None?
    decreases |reqs|
  {
    if reqs != [] {
      var init := reqs[..|reqs| - 1];
      HitsAreMatches(obj, start, end, init);
      assert forall j :: 0 <= j < |init| ==> init[j] == reqs[j];
      var hits := Hits(obj, start, end, reqs);
      var before := Hits(obj, start, end, init);
      assert hits == before + (if FirstMatch(obj, start, end, reqs[|reqs| - 1].name).Some? then [reqs[|reqs| - 1]] else []);
      forall k | 0 <= k < |hits|
        ensures Held(obj, start, end, reqs, hits[k])
      {
        if k < |before| {
          assert Held(obj, start, end, init, before[k]);
          var j :| 0 <= j < |init| && init[j] == before[k] && FirstMatch(obj, start, end, init[j].name).Some?;
          assert reqs[j] == hits[k];
        } else {
          assert reqs[|reqs| - 1] == hits[k];
        }
      }
      forall j | 0 <= j < |reqs| && FirstMatch(obj, start, end, reqs[j].name).Some?
        ensures reqs[j] in hits
      {
        if j < |init| {
          assert init[j] in before;
        }
      }
    }
  }

  /** The last found request is the last request of the list that the table holds. */
  lemma {:induction false} LastHit(obj: seq<byte>, start: nat, end: nat, reqs: seq<Request>, j: nat)
    requires start <= end <= |obj| && j < |reqs|
    requires FirstMatch(obj, start, end, reqs[j].name).Some?
    requires forall l :: j < l < |reqs| ==> FirstMatch(obj, start, end, reqs[l].name).None?
    ensures Hits(obj, start, end, reqs) != []
    ensures Hits(obj, start, end, reqs)[|Hits(obj, start, end, reqs)| - 1] == reqs[j]
    decreases |reqs|
  {
    if j < |reqs| - 1 {
      var init := reqs[..|reqs| - 1];
      assert init[j] == reqs[j];
      LastHit(obj, start, end, init, j);
    }
  }

  /** The found requests of a prefix of the list begin the found requests of the whole list. */
  lemma {:induction false} HitsOfPrefix(obj: seq<byte>, start: nat, end: nat, reqs: seq<Request>, n: nat)
    requires start <= end <= |obj| && n <= |reqs|
    ensures Hits(obj, start, end, reqs[..n]) <= Hits(obj, start, end, reqs)
    decreases |reqs| - n
  {
    if n < |reqs| {
      HitsOfPrefix(obj, start, end, reqs, n + 1);
      assert reqs[..n + 1][..n] == reqs[..n];
    } else {
      assert reqs[..n] == reqs;
    }
  }

  /** One write per found request, all to the member's FNID place. */
  function WritesTo(target: nat, hits: seq<Request>): (r: seq<Write>)
    ensures |r| == |hits|
    ensures forall k :: 0 <= k < |r| ==> r[k] == Write(target, hits[k].fnid)
  {
    if hits == [] then [] else WritesTo(target, hits[..|hits| - 1]) + [Write(target, hits[|hits| - 1].fnid)]
  }

  /** Whether the second loop of `ReplaceFnid` finds the request's name in the member's string table. */
  predicate Hit(m: Member, req: Request)
  {
    var loc := Locate(m.obj);
    loc.StringTable? && FirstMatch(m.obj, loc.start, loc.end, req.name).Some?
  }

  /** The writes for one member, or the fault that stops the run at it; `size` is the length of the file. */
  function MemberWrites(m: Member, index: nat, reqs: seq<Request>, size: nat): (r: Result<seq<Write>, PatchFault>)
    ensures r.Ok? ==> AllFit(r.value, size)
    ensures r.Ok? ==> forall k :: 0 <= k < |r.value| ==> r.value[k].offset == Target(m)
    ensures r.Err? ==> r.error.member == index
  {
    match Locate(m.obj)
    case NotElf => Ok([])
    case NoStringTable => Ok([])
    case Unreadable(f) => Err(UnreadableElf(index, f))
    case StringTable(_, start, end) =>
      var hits := Hits(m.obj, start, end, reqs);
      if hits != [] && Target(m) + FnidWidth > size then Err(WriteOutsideFile(index, Target(m)))
      else Ok(WritesTo(Target(m), hits))
  }

  /** The whole run over the members in order: writes accumulate until a member faults. */
  function Plan(ms: seq<Member>, reqs: seq<Request>, size: nat): (p: PatchPlan)
    ensures AllFit(p.writes, size)
  {
    if ms == [] then PatchPlan([], None)
    else
      var prev := Plan(ms[..|ms| - 1], reqs, size);
      if prev.fault.Some? then prev
      else match MemberWrites(ms[|ms| - 1], |ms| - 1, reqs, size)
        case Err(f) => PatchPlan(prev.writes, Some(f))
        case Ok(ws) => PatchPlan(prev.writes + ws, None)
  }

  /** Once a prefix of the members faults, the run over the whole list ends there with the same writes. */
  lemma {:induction false} PlanFaultSticks(ms: seq<Member>, reqs: seq<Request>, size: nat, n: nat)
    requires n <= |ms| && Plan(ms[..n], reqs, size).fault.Some?
    ensures Plan(ms, reqs, size) == Plan(ms[..n], reqs, size)
    decreases |ms| - n
  {
    if n < |ms| {
      assert ms[..n + 1][..n] == ms[..n];
      PlanFaultSticks(ms, reqs, size, n + 1);
    } else {
      assert ms[..n] == ms;
    }
  }

  /**
   * The run stops at the first member that faults, with that member's fault;
   * every member before it was patched without one.
   */
  lemma {:induction false} PlanStopsAtFirstFault(ms: seq<Member>, reqs: seq<Request>, size: nat)
    ensures var p := Plan(ms, reqs, size);
      p.fault.Some? ==>
        p.fault.value.member < |ms|
        && MemberWrites(ms[p.fault.value.member], p.fault.value.member, reqs, size) == Err(p.fault.value)
        && forall i :: 0 <= i < p.fault.value.member ==> MemberWrites(ms[i], i, reqs, size).Ok?
    ensures var p := Plan(ms, reqs, size);
      p.fault.None? <==> forall i :: 0 <= i < |ms| ==> MemberWrites(ms[i], i, reqs, size).Ok?
    decreases |ms|
  {
    if ms != [] {
      var init := ms[..|ms| - 1];
      PlanStopsAtFirstFault(init, reqs, size);
      assert forall i :: 0 <= i < |init| ==> init[i] == ms[i];
    }
  }

  /** A write that stores the FNID of a request whose name one member's string table holds, at that member's FNID place. */
  ghost predicate FromHit(ms: seq<Member>, reqs: seq<Request>, w: Write)
  {
    exists i, j :: 0 <= i < |ms| && 0 <= j < |reqs| && Hit(ms[i], reqs[j]) && w == Write(Target(ms[i]), reqs[j].fnid)
  }

  lemma FromHitOfPrefix(ms: seq<Member>, n: nat, reqs: seq<Request>, w: Write)
    requires n <= |ms| && FromHit(ms[..n], reqs, w)
    ensures FromHit(ms, reqs, w)
  {
    var i, j :| 0 <= i < n && 0 <= j < |reqs| && Hit(ms[..n][i], reqs[j]) && w == Write(Target(ms[..n][i]), reqs[j].fnid);
    assert ms[..n][i] == ms[i];
  }

  lemma FromHitOfMember(ms: seq<Member>, i: nat, reqs: seq<Request>, size: nat, k: nat)
    requires i < |ms| && MemberWrites(ms[i], i, reqs, size).Ok? && k < |MemberWrites(ms[i], i, reqs, size).value|
    ensures FromHit(ms, reqs, MemberWrites(ms[i], i, reqs, size).value[k])
  {
    MemberWriteJustified(ms[i], i, reqs, size, k);
  }

  /** Every write of the run comes from a request that some member's string table holds. */
  lemma {:induction false} PlanWritesJustified(ms: seq<Member>, reqs: seq<Request>, size: nat)
    ensures forall k :: 0 <= k < |Plan(ms, reqs, size).writes| ==> FromHit(ms, reqs, Plan(ms, reqs, size).writes[k])
    decreases |ms|
  {
    if ms != [] {
      var n := |ms| - 1;
      PlanWritesJustified(ms[..n], reqs, size);
      var prev := Plan(ms[..n], reqs, size).writes;
      var p := Plan(ms, reqs, size).writes;
      forall k | 0 <= k < |p|
        ensures FromHit(ms, reqs, p[k])
      {
        if k < |prev| {
          FromHitOfPrefix(ms, n, reqs, p[k]);
        } else {
          FromHitOfMember(ms, n, reqs, size, k - |prev|);
        }
      }
    }
  }

  /** One write of a member stores the FNID of a request that member's string table holds. */
  lemma MemberWriteJustified(m: Member, index: nat, reqs: seq<Request>, size: nat, k: nat)
    requires MemberWrites(m, index, reqs, size).Ok? && k < |MemberWrites(m, index, reqs, size).value|
    ensures exists j :: 0 <= j < |reqs| && Hit(m, reqs[j])
                        && MemberWrites(m, index, reqs, size).value[k] == Write(Target(m), reqs[j].fnid)
  {
    var loc := Locate(m.obj);
    HitsAreMatches(m.obj, loc.start, loc.end, reqs);
  }

  /** When no member's string table holds any requested name, nothing is written and the file is unchanged. */
  lemma {:induction false} NoHitNoWrites(ms: seq<Member>, reqs: seq<Request>, file: seq<byte>)
    requires forall i, j :: 0 <= i < |ms| && 0 <= j < |reqs| ==> !Hit(ms[i], reqs[j])
    ensures Plan(ms, reqs, |file|).writes == []
    ensures ApplyAll(file, Plan(ms, reqs, |file|).writes) == file
    decreases |ms|
  {
    if ms != [] {
      var init := ms[..|ms| - 1];
      var m := ms[|ms| - 1];
      assert forall i :: 0 <= i < |init| ==> init[i] == ms[i];
      NoHitNoWrites(init, reqs, file);
      var loc := Locate(m.obj);
      if loc.StringTable? {
        HitsAreMatches(m.obj, loc.start, loc.end, reqs);
        assert forall j :: 0 <= j < |reqs| ==> !Hit(m, reqs[j]);
      }
    }
  }

  /**
   * Among the requests that one member's string table holds, the last in the
   * list decides the member's FNID: its four bytes are what the member's
   * FNID place holds after that member's writes.
   */
  lemma LastMatchWins(m: Member, index: nat, reqs: seq<Request>, file: seq<byte>, j: nat)
    requires MemberWrites(m, index, reqs, |file|).Ok? && j < |reqs| && Hit(m, reqs[j])
    requires forall l :: j < l < |reqs| ==> !Hit(m, reqs[l])
    ensures var ws := MemberWrites(m, index, reqs, |file|).value;
      ws != [] && Target(m) + FnidWidth <= |file|
      && ApplyAll(file, ws)[Target(m)..Target(m) + FnidWidth] == BigEndianBytes(FnidWidth, reqs[j].fnid)
  {
    var ws := MemberWrites(m, index, reqs, |file|).value;
    LastWriteOfMember(m, index, reqs, |file|, j);
    LastWriteWins(file, ws, |ws| - 1);
  }

  /** The last write for a member stores the FNID of the last request it holds. */
  lemma LastWriteOfMember(m: Member, index: nat, reqs: seq<Request>, size: nat, j: nat)
    requires MemberWrites(m, index, reqs, size).Ok? && j < |reqs| && Hit(m, reqs[j])
    requires forall l :: j < l < |reqs| ==> !Hit(m, reqs[l])
    ensures var ws := MemberWrites(m, index, reqs, size).value;
      ws != [] && ws[|ws| - 1] == Write(Target(m), reqs[j].fnid)
  {
    var loc := Locate(m.obj);
    LastHitOfMember(m, reqs, j);
    var hits := Hits(m.obj, loc.start, loc.end, reqs);
    assert MemberWrites(m, index, reqs, size).value == WritesTo(Target(m), hits);
  }

  /** The last request a member holds is the last of the requests found in its string table. */
  lemma LastHitOfMember(m: Member, reqs: seq<Request>, j: nat)
    requires j < |reqs| && Hit(m, reqs[j])
    requires forall l :: j < l < |reqs| ==> !Hit(m, reqs[l])
    ensures Locate(m.obj).StringTable?
    ensures var loc := Locate(m.obj); var hits := Hits(m.obj, loc.start, loc.end, reqs);
      hits != [] && hits[|hits| - 1] == reqs[j]
  {
    var loc := Locate(m.obj);
    forall l | j < l < |reqs|
      ensures FirstMatch(m.obj, loc.start, loc.end, reqs[l].name).None?
    {
      assert !Hit(m, reqs[l]);
    }
    LastHit(m.obj, loc.start, loc.end, reqs, j);
  }

  /** Request `j` is the last request of the list whose name member `m`'s string table holds. */
  ghost predicate LastHeld(m: Member, reqs: seq<Request>, j: nat)
  {
    j < |reqs| && Hit(m, reqs[j]) && forall l :: j < l < |reqs| ==> !Hit(m, reqs[l])
  }

  /** The members' FNID places lie in file order, each at least four bytes past any earlier one. */
  ghost predicate Ascending(ms: seq<Member>)
  {
    forall a, b :: 0 <= a < b < |ms| ==> Target(ms[a]) + FnidWidth <= Target(ms[b])
  }

  /** Members each at least four bytes past the one before have ascending FNID places. */
  lemma ConsecutiveAscending(ms: seq<Member>)
    requires forall i :: 0 < i < |ms| ==> ms[i - 1].fileOffset + FnidWidth <= ms[i].fileOffset
    ensures Ascending(ms)
  {
    forall a, b | 0 <= a < b < |ms|
      ensures Target(ms[a]) + FnidWidth <= Target(ms[b])
    {
      StepsApart(ms, a, b);
    }
  }

  lemma {:induction false} StepsApart(ms: seq<Member>, a: nat, b: nat)
    requires forall i :: 0 < i < |ms| ==> ms[i - 1].fileOffset + FnidWidth <= ms[i].fileOffset
    requires a < b < |ms|
    ensures ms[a].fileOffset + FnidWidth <= ms[b].fileOffset
    decreases b - a
  {
    if b > a + 1 {
      StepsApart(ms, a, b - 1);
    }
  }

  /** `o` is the FNID place of one of the members from index `n` on. */
  ghost predicate TargetFrom(ms: seq<Member>, n: nat, o: nat)
  {
    exists m :: n <= m < |ms| && o == Target(ms[m])
  }

  /**
   * When the first `n` members patch without a fault, their writes begin the
   * writes of the whole run, and every later write goes to the FNID place of
   * a member from index `n` on.
   */
  lemma {:induction false} PlanExtends(ms: seq<Member>, reqs: seq<Request>, size: nat, n: nat)
    requires n <= |ms| && Plan(ms[..n], reqs, size).fault.None?
    ensures Plan(ms[..n], reqs, size).writes <= Plan(ms, reqs, size).writes
    ensures forall k :: |Plan(ms[..n], reqs, size).writes| <= k < |Plan(ms, reqs, size).writes| ==>
      TargetFrom(ms, n, Plan(ms, reqs, size).writes[k].offset)
    decreases |ms|
  {
    if n == |ms| {
      assert ms[..n] == ms;
    } else {
      var last := |ms| - 1;
      var init := ms[..last];
      assert init[..n] == ms[..n];
      PlanExtends(init, reqs, size, n);
      var prev := Plan(init, reqs, size).writes;
      var all := Plan(ms, reqs, size).writes;
      PlanGrows(ms, reqs, size);
      forall k | |Plan(ms[..n], reqs, size).writes| <= k < |all|
        ensures TargetFrom(ms, n, all[k].offset)
      {
        if k < |prev| {
          assert TargetFrom(init, n, prev[k].offset);
          var m :| n <= m < |init| && prev[k].offset == Target(init[m]);
          assert init[m] == ms[m];
        } else {
          assert all[k].offset == Target(ms[last]);
        }
      }
    }
  }

  /** One more member adds writes after the others, all at that member's FNID place. */
  lemma PlanGrows(ms: seq<Member>, reqs: seq<Request>, size: nat)
    requires ms != []
    ensures Plan(ms[..|ms| - 1], reqs, size).writes <= Plan(ms, reqs, size).writes
    ensures var prev := Plan(ms[..|ms| - 1], reqs, size).writes; var all := Plan(ms, reqs, size).writes;
      forall k :: |prev| <= k < |all| ==> all[k].offset == Target(ms[|ms| - 1])
  {
    var prev := Plan(ms[..|ms| - 1], reqs, size);
    var r := MemberWrites(ms[|ms| - 1], |ms| - 1, reqs, size);
    if prev.fault.None? && r.Ok? {
      var all := Plan(ms, reqs, size).writes;
      assert all == prev.writes + r.value;
      forall k | |prev.writes| <= k < |all|
        ensures all[k].offset == Target(ms[|ms| - 1])
      {
        assert all[k] == r.value[k - |prev.writes|];
      }
    }
  }

  /**
   * The whole run, for members in file order: when no member up to `i`
   * faults and request `j` is the last one member `i` holds, the file ends
   * with that request's FNID at member i's FNID place, whatever the later
   * members write.
   */
  lemma RunLastMatchWins(ms: seq<Member>, reqs: seq<Request>, file: seq<byte>, i: nat, j: nat)
    requires Ascending(ms) && i < |ms| && j < |reqs|
    requires Plan(ms[..i + 1], reqs, |file|).fault.None?
    requires LastHeld(ms[i], reqs, j)
    ensures Target(ms[i]) + FnidWidth <= |file|
    ensures ApplyAll(file, Plan(ms, reqs, |file|).writes)[Target(ms[i])..Target(ms[i]) + FnidWidth]
            == BigEndianBytes(FnidWidth, reqs[j].fnid)
  {
    var size := |file|;
    PlannedLastWrite(ms, reqs, size, i, j);
    RunFinalWrite(ms, reqs, file, i, reqs[j].fnid);
  }

  /** With no fault up to member `i`, the last write of members 0..i stores the FNID of the last request member i holds. */
  lemma PlannedLastWrite(ms: seq<Member>, reqs: seq<Request>, size: nat, i: nat, j: nat)
    requires i < |ms| && j < |reqs| && Plan(ms[..i + 1], reqs, size).fault.None?
    requires LastHeld(ms[i], reqs, j)
    ensures var upTo := Plan(ms[..i + 1], reqs, size).writes;
      upTo != [] && upTo[|upTo| - 1] == Write(Target(ms[i]), reqs[j].fnid)
  {
    var m := ms[i];
    PlanThrough(ms, reqs, size, i);
    LastWriteOfMember(m, i, reqs, size, j);
    var ws := MemberWrites(m, i, reqs, size).value;
    var upTo := Plan(ms[..i + 1], reqs, size).writes;
    assert upTo[|upTo| - 1] == ws[|ws| - 1];
  }

  /**
   * The whole run, for members in file order: when no member up to `i`
   * faults and the last write of members 0..i puts `value` at member i's
   * FNID place, the file ends with `value` there.
   */
  lemma RunFinalWrite(ms: seq<Member>, reqs: seq<Request>, file: seq<byte>, i: nat, value: uint32)
    requires Ascending(ms) && i < |ms|
    requires Plan(ms[..i + 1], reqs, |file|).fault.None?
    requires var upTo := Plan(ms[..i + 1], reqs, |file|).writes;
      upTo != [] && upTo[|upTo| - 1] == Write(Target(ms[i]), value)
    ensures Target(ms[i]) + FnidWidth <= |file|
    ensures ApplyAll(file, Plan(ms, reqs, |file|).writes)[Target(ms[i])..Target(ms[i]) + FnidWidth]
            == BigEndianBytes(FnidWidth, value)
  {
    var size := |file|;
    var upTo := Plan(ms[..i + 1], reqs, size).writes;
    var all := Plan(ms, reqs, size).writes;
    LaterWritesApart(ms, reqs, size, i);
    var q := |upTo| - 1;
    assert all[q] == upTo[q];
    FinalWrite(file, all, q, Target(ms[i]), value);
  }

  /** A write that no later write reaches past its place leaves its bytes there at the end. */
  lemma FinalWrite(file: seq<byte>, ws: seq<Write>, q: nat, offset: nat, value: uint32)
    requires AllFit(ws, |file|) && q < |ws| && ws[q] == Write(offset, value)
    requires forall l :: q < l < |ws| ==> offset + FnidWidth <= ws[l].offset
    ensures offset + FnidWidth <= |file|
    ensures ApplyAll(file, ws)[offset..offset + FnidWidth] == BigEndianBytes(FnidWidth, value)
  {
    LastWriteWins(file, ws, q);
  }

  /** With no fault up to member `i`, the run over members 0..i ends with member i's writes. */
  lemma PlanThrough(ms: seq<Member>, reqs: seq<Request>, size: nat, i: nat)
    requires i < |ms| && Plan(ms[..i + 1], reqs, size).fault.None?
    ensures MemberWrites(ms[i], i, reqs, size).Ok?
    ensures Plan(ms[..i + 1], reqs, size).writes
            == Plan(ms[..i], reqs, size).writes + MemberWrites(ms[i], i, reqs, size).value
  {
    var pre := ms[..i + 1];
    assert pre[..i] == ms[..i] && pre[i] == ms[i];
  }

  /** The writes after those of members 0..i all go at least four bytes past member i's FNID place. */
  lemma LaterWritesApart(ms: seq<Member>, reqs: seq<Request>, size: nat, i: nat)
    requires Ascending(ms) && i < |ms| && Plan(ms[..i + 1], reqs, size).fault.None?
    ensures Plan(ms[..i + 1], reqs, size).writes <= Plan(ms, reqs, size).writes
    ensures var all := Plan(ms, reqs, size).writes;
      forall l :: |Plan(ms[..i + 1], reqs, size).writes| <= l < |all| ==> Target(ms[i]) + FnidWidth <= all[l].offset
  {
    PlanExtends(ms, reqs, size, i + 1);
    var all := Plan(ms, reqs, size).writes;
    forall l | |Plan(ms[..i + 1], reqs, size).writes| <= l < |all|
      ensures Target(ms[i]) + FnidWidth <= all[l].offset
    {
      assert TargetFrom(ms, i + 1, all[l].offset);
      var m :| i + 1 <= m < |ms| && all[l].offset == Target(ms[m]);
      assert Target(ms[i]) + FnidWidth <= Target(ms[m]);
    }
  }

  /** A byte outside the FNID place of every member keeps its value through the whole run. */
  lemma RunKeepsOtherBytes(ms: seq<Member>, reqs: seq<Request>, file: seq<byte>, b: nat)
    requires b < |file|
    requires forall i :: 0 <= i < |ms| ==> !(Target(ms[i]) <= b < Target(ms[i]) + FnidWidth)
    ensures ApplyAll(file, Plan(ms, reqs, |file|).writes)[b] == file[b]
  {
    var all := Plan(ms, reqs, |file|).writes;
    PlanWritesJustified(ms, reqs, |file|);
    forall k | 0 <= k < |all|
      ensures !(all[k].offset <= b < all[k].offset + FnidWidth)
    {
      assert FromHit(ms, reqs, all[k]);
    }
    ApplyAllFrame(file, all, b);
  }

  /** `WriteFile(path, data, dataLen, offset)` on the archive file: the bytes at `offset` are overwritten with `data`. */
  method WriteFile(file: array<byte>, offset: nat, data: seq<byte>)
    requires offset + |data| <= file.Length
    modifies file
    ensures file[..] == old(file[..])[..offset] + data + old(file[..])[offset + |data|..]
  {
    for k := 0 to |data|
      invariant forall i :: 0 <= i < file.Length ==>
        file[i] == (if offset <= i < offset + k then data[i - offset] else old(file[i]))
    {
      file[offset + k] := data[k];
    }
    assert file[..] == old(file[..])[..offset] + data + old(file[..])[offset + |data|..];
  }
}
