/**
 * The earlier copy of the cursor (WinSock1). Its fragment operations,
 * token generator, deferred steps and staged-read classification are the
 * same text as the newer copy and share that model; what differs is
 * AdvanceFrag, which moves from the last fragment of fst onto a fragment
 * that does not exist and walks past the end of snd, and with it the
 * walk of GetFromTo.
 */
module Legacy {
  import opened Wrappers
  import opened Fragments
  import opened Cursor
  import opened PackNlDelEx

  /** How a legacy cursor operation can fail: at() or substr() throws, or an assert(0) fires. */
  datatype Fault = OutOfRange | AssertFired

  /** What the legacy GetFromTo leaves: the bytes appended, or the fault that ended it. */
  datatype Copy = Copied(bytes: string) | CopyFault(fault: Fault)

  /** The deque the cursor is in. */
  function Curr(fst: seq<Fragment>, snd: seq<Fragment>, c: PackContR): seq<Fragment>
  {
    if c.inIn then fst else snd
  }

  /** CurFragData: the current fragment's bytes, or None where at() throws. */
  function FragAt(fst: seq<Fragment>, snd: seq<Fragment>, c: PackContR): (r: Option<string>)
    ensures r.Some? <==> c.fragNo < |Curr(fst, snd, c)|
  {
    var curr := Curr(fst, snd, c);
    if c.fragNo < |curr| then Some(curr[c.fragNo].data) else None
  }

  /**
   * AdvanceFrag of the earlier copy: the assert when past the end of the
   * current deque; from one past the end of fst to the start of snd;
   * otherwise one fragment on, unclamped; partNo becomes 0.
   */
  function OldNext(fst: seq<Fragment>, snd: seq<Fragment>, c: PackContR): (r: Option<PackContR>)
    ensures r.Some? <==> c.fragNo <= |Curr(fst, snd, c)|
    ensures r.Some? ==> r.value.partNo == 0
  {
    var len := |Curr(fst, snd, c)|;
    if c.fragNo > len then None
    else if c.fragNo == len && c.inIn then Some(PackContR(0, 0, false))
    else Some(PackContR(c.fragNo + 1, 0, c.inIn))
  }

  /** The earlier PackContIt: the same fields as the newer one. */
  class OldPackContIt {
    const fst: seq<Fragment>
    const snd: seq<Fragment>
    var cont: PackContR
    var canary: int

    /** Starts at (0, 0, |fst| > 0), like the newer copy. */
    constructor (fst: seq<Fragment>, snd: seq<Fragment>)
      ensures this.fst == fst && this.snd == snd
      ensures cont == PackContR(0, 0, |fst| > 0) && canary == 0
      ensures ValidCont(fst, snd, cont)
    {
      this.fst := fst;
      this.snd := snd;
      cont := PackContR(0, 0, |fst| > 0);
      canary := 0;
    }

    /** The copy constructor. */
    constructor Copy(other: OldPackContIt)
      ensures fst == other.fst && snd == other.snd
      ensures cont == other.cont && canary == other.canary
    {
      fst := other.fst;
      snd := other.snd;
      cont := other.cont;
      canary := other.canary;
    }

    /** CurFragData on the current position. */
    function CurFragData(): (r: Option<string>)
      reads this
      ensures r == FragAt(fst, snd, cont)
    {
      var curr := if cont.inIn then fst else snd;
      if cont.fragNo < |curr| then Some(curr[cont.fragNo].data) else None
    }

    /** Sets partNo to w clamped to the current fragment's length, 0 where there is no fragment. */
    method AdvanceToPart(w: nat)
      modifies this`cont
      ensures cont.fragNo == old(cont.fragNo) && cont.inIn == old(cont.inIn)
      ensures FragAt(fst, snd, cont).None? ==> cont.partNo == 0
      ensures FragAt(fst, snd, cont).Some? ==>
        var len := |FragAt(fst, snd, cont).value|;
        cont.partNo <= len && (cont.partNo == w || cont.partNo == len) && (w <= len ==> cont.partNo == w)
    {
      var curr := if cont.inIn then fst else snd;
      var len := if cont.fragNo >= |curr| then 0 else |curr[cont.fragNo].data|;
      cont := cont.(partNo := if w < len then w else len);
    }

    /** AdvanceFrag as written in the earlier copy; Some(AssertFired) when the assert fires. */
    method AdvanceFrag() returns (f: Option<Fault>)
      modifies this`cont
      ensures f.None? <==> OldNext(fst, snd, old(cont)).Some?
      ensures f.None? ==> cont == OldNext(fst, snd, old(cont)).value
      ensures f.Some? ==> f.value == AssertFired && cont == old(cont)
    {
      var curr := if cont.inIn then fst else snd;
      if cont.fragNo > |curr| {
        return Some(AssertFired);
      }
      if cont.fragNo == |curr| && cont.inIn {
        cont := PackContR(0, 0, false);
      } else {
        cont := cont.(fragNo := cont.fragNo + 1);
      }
      AdvanceToPart(0);
      f := None;
    }

    /**
     * AdvancePart: one byte on, then to the next fragment on reaching the
     * fragment's length; at() throws where there is no fragment (after
     * the increment).
     */
    method AdvancePart() returns (f: Option<Fault>)
      modifies this`cont
      ensures FragAt(fst, snd, old(cont)).None? ==>
        f == Some(OutOfRange) && cont == old(cont).(partNo := old(cont.partNo) + 1)
      ensures FragAt(fst, snd, old(cont)).Some? && old(cont.partNo) + 1 < |FragAt(fst, snd, old(cont)).value| ==>
        f.None? && cont == old(cont).(partNo := old(cont.partNo) + 1)
      ensures FragAt(fst, snd, old(cont)).Some? && old(cont.partNo) + 1 >= |FragAt(fst, snd, old(cont)).value| ==>
        f.None? && OldNext(fst, snd, old(cont)) == Some(cont)
    {
      cont := cont.(partNo := cont.partNo + 1);
      var data := CurFragData();
      if data.None? {
        return Some(OutOfRange);
      }
      if cont.partNo >= |data.value| {
        f := AdvanceFrag();
      } else {
        f := None;
      }
    }

    /** True at the end of snd; bumps the canary and asserts once it has passed the limit. */
    method EndFragP() returns (r: Checked<bool>)
      modifies this`canary
      ensures canary == old(canary) + 1
      ensures r == if old(canary) > CanaryLimit then Aborted else Ok(!cont.inIn && cont.fragNo == |snd|)
    {
      var c := canary;
      canary := canary + 1;
      if c > CanaryLimit {
        return Aborted;
      }
      r := Ok(!cont.inIn && cont.fragNo == |snd|);
    }

    /** Same deque and fragment (offsets ignored); bumps the canary like EndFragP. */
    method SameFragP(rhs: OldPackContIt) returns (r: Checked<bool>)
      modifies this`canary
      ensures canary == old(canary) + 1
      ensures rhs != this ==> rhs.canary == old(rhs.canary)
      ensures r == if old(canary) > CanaryLimit then Aborted
        else Ok(cont.inIn == rhs.cont.inIn && cont.fragNo == rhs.cont.fragNo)
    {
      var c := canary;
      canary := canary + 1;
      if c > CanaryLimit {
        return Aborted;
      }
      r := Ok(cont.inIn == rhs.cont.inIn && cont.fragNo == rhs.cont.fragNo);
    }
  }

  /** The fragments the copy took so far in front of what the rest of the walk yields. */
  function AppendCopy(prefix: string, c: Copy): (r: Copy)
    ensures r.Copied? <==> c.Copied?
    ensures r.Copied? ==> r.bytes == prefix + c.bytes
    ensures r.CopyFault? ==> r.fault == c.fault
  {
    match c
    case Copied(s) => Copied(prefix + s)
    case CopyFault(f) => CopyFault(f)
  }

  /**
   * GetFromTo of the earlier copy, from cursor c with canary k to the
   * fragment of stop: one SameFragP per step, the rest of each earlier
   * fragment (substr throws on an offset past its end), AdvanceFrag as
   * written; at the stop fragment, EndFragP and the first stop.partNo
   * bytes of it. A canary assert is AssertFired.
   */
  function OldCopyFrom(fst: seq<Fragment>, snd: seq<Fragment>, c: PackContR, stop: PackContR, k: int): Copy
    decreases CanaryLimit + 1 - k
  {
    if k > CanaryLimit then CopyFault(AssertFired)
    else if c.inIn == stop.inIn && c.fragNo == stop.fragNo then
      if k + 1 > CanaryLimit then CopyFault(AssertFired)
      else if !c.inIn && c.fragNo == |snd| then Copied("")
      else
        match FragAt(fst, snd, c)
        case None => CopyFault(OutOfRange)
        case Some(d) => Copied(d[..Clamp(stop.partNo, |d|)])
    else
      match FragAt(fst, snd, c)
      case None => CopyFault(OutOfRange)
      case Some(d) =>
        if c.partNo > |d| then CopyFault(OutOfRange)
        else
          match OldNext(fst, snd, c)
          case None => CopyFault(AssertFired)
          case Some(n) => AppendCopy(d[c.partNo..], OldCopyFrom(fst, snd, n, stop, k + 1))
  }

  lemma AppendCopyTwice(a: string, b: string, c: Copy)
    ensures AppendCopy(a + b, c) == AppendCopy(a, AppendCopy(b, c))
  {
    if c.Copied? {
      assert a + b + c.bytes == a + (b + c.bytes);
    }
  }

  /** PackContIt::GetFromTo of the earlier copy: appends to accum what its walk yields. */
  method GetFromTo(from: OldPackContIt, stop: OldPackContIt, accum: string) returns (r: Copy)
    requires from.fst == stop.fst && from.snd == stop.snd
    ensures r == AppendCopy(accum, OldCopyFrom(from.fst, from.snd, from.cont, stop.cont, from.canary))
  {
    ghost var fst, snd, target := from.fst, from.snd, stop.cont;
    ghost var total := OldCopyFrom(fst, snd, from.cont, target, from.canary);
    var it := new OldPackContIt.Copy(from);
    var acc := accum;
    ghost var last := total;
    while true
      invariant fresh(it) && it.fst == fst && it.snd == snd && stop.cont == target
      invariant AppendCopy(acc, OldCopyFrom(fst, snd, it.cont, target, it.canary)) == AppendCopy(accum, total)
      decreases CanaryLimit + 1 - it.canary
    {
      ghost var c, k := it.cont, it.canary;
      last := OldCopyFrom(fst, snd, c, target, k);
      var same := it.SameFragP(stop);
      if same.Aborted? {
        return CopyFault(AssertFired);
      }
      if same.value {
        break;
      }
      var data := it.CurFragData();
      if data.None? {
        return CopyFault(OutOfRange);
      }
      if it.cont.partNo > |data.value| {
        return CopyFault(OutOfRange);
      }
      var part := data.value[it.cont.partNo..];
      var f := it.AdvanceFrag();
      if f.Some? {
        return CopyFault(AssertFired);
      }
      assert last == AppendCopy(part, OldCopyFrom(fst, snd, it.cont, target, k + 1));
      AppendCopyTwice(acc, part, OldCopyFrom(fst, snd, it.cont, target, k + 1));
      acc := acc + part;
    }
    var end := it.EndFragP();
    if end.Aborted? {
      return CopyFault(AssertFired);
    }
    if end.value {
      assert acc + "" == acc;
      return Copied(acc);
    }
    var data := it.CurFragData();
    if data.None? {
      return CopyFault(OutOfRange);
    }
    var head := data.value[..Clamp(stop.cont.partNo, |data.value|)];
    return Copied(acc + head);
  }

  /**
   * Away from the last fragment of fst and from the end of snd, the
   * earlier AdvanceFrag moves exactly as the newer one: to the next
   * fragment of fst + snd, at offset 0, on a position that exists.
   */
  lemma OldNextAgrees(fst: seq<Fragment>, snd: seq<Fragment>, c: PackContR)
    requires ValidFrag(fst, snd, c) && Global(fst, c) < |fst| + |snd|
    requires !(c.inIn && c.fragNo + 1 == |fst|)
    ensures OldNext(fst, snd, c).Some?
    ensures var n := OldNext(fst, snd, c).value;
      ValidFrag(fst, snd, n) && Global(fst, n) == Global(fst, c) + 1 && n.partNo == 0
  {
  }

  /**
   * From the last fragment of fst the earlier AdvanceFrag lands on
   * fragment |fst| of fst, which does not exist (CurFragData throws
   * there); only a further AdvanceFrag reaches the start of snd.
   */
  lemma OldNextStrands(fst: seq<Fragment>, snd: seq<Fragment>, c: PackContR)
    requires c.inIn && |fst| > 0 && c.fragNo + 1 == |fst|
    ensures OldNext(fst, snd, c) == Some(PackContR(|fst|, 0, true))
    ensures !ValidFrag(fst, snd, PackContR(|fst|, 0, true))
    ensures FragAt(fst, snd, PackContR(|fst|, 0, true)).None?
    ensures OldNext(fst, snd, PackContR(|fst|, 0, true)) == Some(PackContR(0, 0, false))
  {
  }

  /**
   * At the end of snd the earlier AdvanceFrag does not stay put: it walks
   * one past the end, and the next call fires the assert.
   */
  lemma OldNextOverruns(fst: seq<Fragment>, snd: seq<Fragment>, p: nat)
    ensures OldNext(fst, snd, PackContR(|snd|, p, false)) == Some(PackContR(|snd| + 1, 0, false))
    ensures !ValidFrag(fst, snd, PackContR(|snd| + 1, 0, false))
    ensures OldNext(fst, snd, PackContR(|snd| + 1, 0, false)).None?
  {
  }

  /**
   * A copy that starts in fst and stops in snd always throws
   * out_of_range in the earlier copy (when the canary allows the walk to
   * get there): the walk is stranded past the last fragment of fst.
   */
  lemma {:induction false} OldCopyCrossingThrows(fst: seq<Fragment>, snd: seq<Fragment>, c: PackContR, stop: PackContR, k: int)
    requires c.inIn && c.fragNo < |fst| && c.partNo <= |fst[c.fragNo].data|
    requires !stop.inIn && k + (|fst| - c.fragNo) <= CanaryLimit
    ensures OldCopyFrom(fst, snd, c, stop, k) == CopyFault(OutOfRange)
    decreases |fst| - c.fragNo
  {
    var n := PackContR(c.fragNo + 1, 0, true);
    assert OldNext(fst, snd, c) == Some(n);
    if c.fragNo + 1 < |fst| {
      OldCopyCrossingThrows(fst, snd, n, stop, k + 1);
    } else {
      assert OldCopyFrom(fst, snd, n, stop, k + 1) == CopyFault(OutOfRange);
    }
  }

  /**
   * The record "ab\n" buffered as "a" with "b\n" just read: the earlier
   * GetFromTo throws where the newer one (with the same-fragment slip
   * corrected) yields the record.
   */
  lemma OldCopyLosesRecord(s: Stamp)
    ensures var fst := [Fragment(s, "a")];
      var snd := [Fragment(s, "b\n")];
      && OldCopyFrom(fst, snd, PackContR(0, 0, true), PackContR(0, 2, false), 0) == CopyFault(OutOfRange)
      && CopyFromToIntended(fst + snd, 0, 0, 1, 2, 0) == Ok("ab\n")
  {
    var fst := [Fragment(s, "a")];
    var snd := [Fragment(s, "b\n")];
    OldCopyCrossingThrows(fst, snd, PackContR(0, 0, true), PackContR(0, 2, false), 0);
    var all := fst + snd;
    assert all[0].data[0..] == "a" && all[1].data[0..2] == "b\n";
    CopyFromToIntendedStep(all, 0, 0, 1, 2, 0);
    CopyFromToIntendedEnd(all, 1, 0, 2, 1);
    assert "a" + "b\n" == "ab\n";
  }
}
