/**
 * The newline-delimited packetizer (NetStuff::PackNlDelEx): find the next
 * '\n' across fst + snd, copy the bytes between two cursors, and take one
 * record at a time.
 *
 * The specification functions work on all = fst + snd with global
 * fragment indices (see module Cursor) and thread the iterator's canary.
 */
module PackNlDelEx {
  import opened Wrappers
  import opened Fragments
  import opened Cursor

  /** std::string::find('\n', from): the position of a newline at or after from, or none. */
  function FindNl(s: string, from: nat): (r: Option<nat>)
    ensures r.Some? ==> from <= r.value < |s| && s[r.value] == '\n'
    decreases |s| - from
  {
    if from >= |s| then None
    else if s[from] == '\n' then Some(from)
    else FindNl(s, from + 1)
  }

  /** find returns the first newline at or after from, and none when there is none. */
  lemma {:induction false} FindNlFirst(s: string, from: nat)
    ensures FindNl(s, from).Some? ==> forall i :: from <= i < FindNl(s, from).value ==> s[i] != '\n'
    ensures FindNl(s, from).None? ==> forall i :: from <= i < |s| ==> s[i] != '\n'
    decreases |s| - from
  {
    if from < |s| && s[from] != '\n' {
      FindNlFirst(s, from + 1);
    }
  }

  /** No newline among the bytes [a, b) of s. */
  ghost predicate NoNewline(s: string, a: int, b: int)
  {
    forall i :: a <= i < b && 0 <= i < |s| ==> s[i] != '\n'
  }

  /** The outcome of ReadyPacketPos: the position after the newline with the canary reached, no newline, or the canary assert. */
  datatype Scan = Found(at: PackCont, canary: int) | NotFound | ScanAborted

  /**
   * ReadyPacketPos from global fragment g, offset p, canary value canary:
   * one EndFragP per fragment visited, then find('\n') from the offset
   * (from 0 after the first fragment).
   */
  function ScanFrom(all: seq<Fragment>, g: nat, p: nat, canary: int): Scan
    requires g <= |all|
    decreases |all| - g
  {
    if canary > CanaryLimit then ScanAborted
    else if g == |all| then NotFound
    else match FindNl(all[g].data, p)
      case Some(i) =>
        if i + 1 < |all[g].data| then Found(PackCont(g, i + 1), canary + 1)
        else Found(PackCont(g + 1, 0), canary + 1)
      case None => ScanFrom(all, g + 1, 0, canary + 1)
  }

  /** A successful scan ends at a valid position after the start, with the canary advanced but not past the limit + 1. */
  lemma {:induction false} ScanFromFound(all: seq<Fragment>, g: nat, p: nat, canary: int)
    requires g <= |all|
    ensures var r := ScanFrom(all, g, p, canary);
      r.Found? ==>
        && ValidPos(all, r.at) && Before(all, g, p, r.at.fragNo, r.at.partNo)
        && canary < r.canary <= CanaryLimit + 1
    decreases |all| - g
  {
    if canary <= CanaryLimit && g < |all| && FindNl(all[g].data, p).None? {
      ScanFromFound(all, g + 1, 0, canary + 1);
    }
  }

  /** The number of EndFragP calls a scan makes when the canary never fires. */
  function ScanSteps(all: seq<Fragment>, g: nat, p: nat): (n: nat)
    requires g <= |all|
    ensures n >= 1
    decreases |all| - g
  {
    if g == |all| then 1
    else if FindNl(all[g].data, p).Some? then 1
    else 1 + ScanSteps(all, g + 1, 0)
  }

  /** The scan aborts exactly when the canary would pass the limit; a successful scan adds its steps to the canary. */
  lemma {:induction false} ScanCanary(all: seq<Fragment>, g: nat, p: nat, canary: int)
    requires g <= |all|
    ensures ScanFrom(all, g, p, canary).ScanAborted? <==> canary + ScanSteps(all, g, p) - 1 > CanaryLimit
    ensures ScanFrom(all, g, p, canary).Found? ==> ScanFrom(all, g, p, canary).canary == canary + ScanSteps(all, g, p)
    decreases |all| - g
  {
    if canary <= CanaryLimit && g < |all| && FindNl(all[g].data, p).None? {
      ScanCanary(all, g + 1, 0, canary + 1);
    }
  }

  /** A stretch of one fragment without '\n' is a stretch of the stream without '\n'. */
  lemma NoNewlineInFrag(all: seq<Fragment>, g: nat, a: nat, b: nat)
    requires g < |all| && a <= b <= |all[g].data|
    requires forall i :: a <= i < b ==> all[g].data[i] != '\n'
    ensures NoNewline(Flat(all), Offset(all, PackCont(g, a)), Offset(all, PackCont(g, b)))
  {
    var base := Offset(all, PackCont(g, 0));
    forall j | Offset(all, PackCont(g, a)) <= j < Offset(all, PackCont(g, b)) && 0 <= j < |Flat(all)|
      ensures Flat(all)[j] != '\n'
    {
      ByteAt(all, g, j - base);
    }
  }

  /** Two adjacent stretches without '\n'. */
  lemma NoNewlineJoin(s: string, a: int, b: int, c: int)
    requires a <= b <= c && NoNewline(s, a, b) && NoNewline(s, b, c)
    ensures NoNewline(s, a, c)
  {
  }

  /** The scan's promise: at is just past a '\n', the first one from offset start of the stream. */
  ghost predicate FoundMeans(all: seq<Fragment>, start: nat, at: PackCont)
  {
    && at.fragNo <= |all|
    && start < Offset(all, at) <= |Flat(all)|
    && Flat(all)[Offset(all, at) - 1] == '\n'
    && NoNewline(Flat(all), start, Offset(all, at) - 1)
  }

  /** The position just past a '\n' found in fragment g at byte i. */
  lemma FoundInFrag(all: seq<Fragment>, g: nat, p: nat, i: nat, at: PackCont)
    requires g < |all| && p <= i < |all[g].data| && all[g].data[i] == '\n'
    requires forall j :: p <= j < i ==> all[g].data[j] != '\n'
    requires at == (if i + 1 < |all[g].data| then PackCont(g, i + 1) else PackCont(g + 1, 0))
    ensures FoundMeans(all, Offset(all, PackCont(g, p)), at)
  {
    ByteAt(all, g, i);
    NoNewlineInFrag(all, g, p, i);
    if i + 1 >= |all[g].data| {
      OffsetStep(all, g);
    }
  }

  /** A found position stays the first '\n' when the stretch before the start has none. */
  lemma FoundMeansExtend(all: seq<Fragment>, a: nat, b: nat, at: PackCont)
    requires a <= b && NoNewline(Flat(all), a, b) && FoundMeans(all, b, at)
    ensures FoundMeans(all, a, at)
  {
  }

  /**
   * What ReadyPacketPos promises: on success the new position is just
   * past the first '\n' at or after the start; on failure there is no '\n'
   * from the start to the end of fst + snd.
   */
  lemma {:induction false} ScanFromMeaning(all: seq<Fragment>, g: nat, p: nat, canary: int)
    requires ValidPos(all, PackCont(g, p))
    ensures ScanFrom(all, g, p, canary).Found? ==>
      FoundMeans(all, Offset(all, PackCont(g, p)), ScanFrom(all, g, p, canary).at)
    ensures ScanFrom(all, g, p, canary).NotFound? ==>
      NoNewline(Flat(all), Offset(all, PackCont(g, p)), |Flat(all)|)
    decreases |all| - g
  {
    var r := ScanFrom(all, g, p, canary);
    if canary > CanaryLimit {
    } else if g == |all| {
      OffsetEnd(all);
    } else {
      var data := all[g].data;
      FindNlFirst(data, p);
      match FindNl(data, p)
      case Some(i) =>
        FoundInFrag(all, g, p, i, r.at);
      case None =>
        var start := Offset(all, PackCont(g, p));
        var next := Offset(all, PackCont(g + 1, 0));
        assert r == ScanFrom(all, g + 1, 0, canary + 1);
        NoNewlineInFrag(all, g, p, |data|);
        OffsetStep(all, g);
        ScanFromMeaning(all, g + 1, 0, canary + 1);
        if r.NotFound? {
          SuffixFromBytes(all, PackCont(g + 1, 0));
          NoNewlineJoin(Flat(all), start, next, |Flat(all)|);
        } else if r.Found? {
          FoundMeansExtend(all, start, next, r.at);
        }
    }
  }

  /**
   * PackNlDelEx::ReadyPacketPos: scan a copy of the cursor fragment by
   * fragment for '\n'; only a successful scan is written back.
   */
  method ReadyPacketPos(fpos: PackContIt) returns (r: Checked<bool>)
    requires fpos.Valid()
    modifies fpos
    ensures match ScanFrom(fpos.All(), old(fpos.G()), old(fpos.cont.partNo), old(fpos.canary))
      case ScanAborted => r == Aborted
      case NotFound => r == Ok(false) && fpos.cont == old(fpos.cont) && fpos.canary == old(fpos.canary)
      case Found(at, k) =>
        && r == Ok(true) && fpos.Valid()
        && fpos.G() == at.fragNo && fpos.cont.partNo == at.partNo && fpos.canary == k
  {
    ghost var all := fpos.All();
    ghost var spec := ScanFrom(all, fpos.G(), fpos.cont.partNo, fpos.canary);
    var pos := new PackContIt.Copy(fpos);
    while true
      invariant fresh(pos) && pos.fst == fpos.fst && pos.snd == fpos.snd && pos.Valid()
      invariant fpos.cont == old(fpos.cont) && fpos.canary == old(fpos.canary)
      invariant ScanFrom(all, pos.G(), pos.cont.partNo, pos.canary) == spec
      decreases |all| - pos.G()
    {
      ghost var g, p, k := pos.G(), pos.cont.partNo, pos.canary;
      var end := pos.EndFragP();
      if end.Aborted? {
        return Aborted;
      }
      if end.value {
        return Ok(false);
      }
      var posn := FindNl(pos.CurFragData(), pos.cont.partNo);
      if posn.Some? {
        ScanFromHit(all, g, p, k, posn.value);
        pos.AdvanceToPart(posn.value);
        pos.AdvancePart();
        fpos.Assign(pos);
        return Ok(true);
      }
      ScanFromStep(all, g, p, k);
      pos.AdvanceFrag();
    }
  }

  /** A '\n' at byte i of fragment g ends the scan just past it. */
  lemma ScanFromHit(all: seq<Fragment>, g: nat, p: nat, k: int, i: nat)
    requires g < |all| && k <= CanaryLimit && FindNl(all[g].data, p) == Some(i)
    ensures ScanFrom(all, g, p, k)
      == Found(if i + 1 < |all[g].data| then PackCont(g, i + 1) else PackCont(g + 1, 0), k + 1)
  {
  }

  /** A fragment without '\n' from the offset on sends the scan to the next fragment. */
  lemma ScanFromStep(all: seq<Fragment>, g: nat, p: nat, k: int)
    requires g < |all| && k <= CanaryLimit && FindNl(all[g].data, p).None?
    ensures ScanFrom(all, g, p, k) == ScanFrom(all, g + 1, 0, k + 1)
  {
  }

  /** Appending in two steps is appending once. */
  lemma AppendToTwice(a: string, b: string, c: Checked<string>)
    ensures AppendTo(a + b, c) == AppendTo(a, AppendTo(b, c))
  {
    if c.Ok? {
      assert a + b + c.value == a + (b + c.value);
    }
  }

  /** Appends the copied bytes to what the caller's string already holds. */
  function AppendTo(prefix: string, c: Checked<string>): (r: Checked<string>)
    ensures r.Ok? <==> c.Ok?
    ensures r.Ok? ==> r.value == prefix + c.value
  {
    match c
    case Aborted => Aborted
    case Ok(s) => Ok(prefix + s)
  }

  /**
   * GetFromTo as written, from global fragment g offset p to fragment gt
   * offset pt, on a copy of the start cursor with canary k: one SameFragP
   * per fragment, the rest of each earlier fragment, then EndFragP and
   * the first pt bytes of the last fragment, from its start.
   */
  function CopyFromTo(all: seq<Fragment>, g: nat, p: nat, gt: nat, pt: nat, k: int): (r: Checked<string>)
    requires ValidPos(all, PackCont(g, p)) && g <= gt <= |all|
    decreases gt - g
  {
    if k > CanaryLimit then Aborted
    else if g == gt then
      if k + 1 > CanaryLimit then Aborted
      else if gt < |all| then Ok(SplitFragPrefix(all[gt], pt))
      else Ok("")
    else AppendTo(all[g].data[p..], CopyFromTo(all, g + 1, 0, gt, pt, k + 1))
  }

  /** The copy aborts exactly when the canary would pass the limit during its gt - g + 2 checks. */
  lemma {:induction false} CopyFromToCanary(all: seq<Fragment>, g: nat, p: nat, gt: nat, pt: nat, k: int)
    requires ValidPos(all, PackCont(g, p)) && g <= gt <= |all|
    ensures CopyFromTo(all, g, p, gt, pt, k).Aborted? <==> k + (gt - g) + 1 > CanaryLimit
    decreases gt - g
  {
    if k <= CanaryLimit && g < gt {
      CopyFromToCanary(all, g + 1, 0, gt, pt, k + 1);
    }
  }

  /** A slice that falls inside the middle part of a concatenation. */
  lemma SliceOfMiddle(pre: string, mid: string, post: string, a: nat, b: nat)
    requires a <= b <= |mid|
    ensures (pre + mid + post)[|pre| + a..|pre| + b] == mid[a..b]
  {
  }

  /** Bytes a to b of fragment g are bytes Offset(g, a) to Offset(g, b) of the stream. */
  lemma FragSlice(all: seq<Fragment>, g: nat, a: nat, b: nat)
    requires g < |all| && a <= b <= |all[g].data|
    ensures Offset(all, PackCont(g, b)) <= |Flat(all)|
    ensures Flat(all)[Offset(all, PackCont(g, a))..Offset(all, PackCont(g, b))] == all[g].data[a..b]
  {
    FlatSplitAt(all, g);
    PrefixLenFlat(all, g);
    var pre, data, post := Flat(all[..g]), all[g].data, Flat(all[g + 1..]);
    SliceOfMiddle(pre, data, post, a, b);
  }

  /** Offsets grow with the position. */
  lemma OffsetBefore(all: seq<Fragment>, g: nat, p: nat, gt: nat, pt: nat)
    requires ValidPos(all, PackCont(g, p)) && ValidPos(all, PackCont(gt, pt))
    requires g < gt || (g == gt && p <= pt)
    ensures Offset(all, PackCont(g, p)) <= Offset(all, PackCont(gt, pt)) <= |Flat(all)|
  {
    SuffixFromBytes(all, PackCont(gt, pt));
    if g < gt {
      OffsetStep(all, g);
      OffsetMono(all, g + 1, gt);
    }
  }

  /** The stream bytes from inside fragment g to a later fragment: the rest of g, then the bytes from g + 1. */
  lemma SliceStep(all: seq<Fragment>, g: nat, p: nat, gt: nat, pt: nat)
    requires ValidPos(all, PackCont(g, p)) && ValidPos(all, PackCont(gt, pt)) && g < gt
    ensures Offset(all, PackCont(g, p)) <= Offset(all, PackCont(g + 1, 0)) <= Offset(all, PackCont(gt, pt)) <= |Flat(all)|
    ensures Flat(all)[Offset(all, PackCont(g, p))..Offset(all, PackCont(gt, pt))]
      == all[g].data[p..] + Flat(all)[Offset(all, PackCont(g + 1, 0))..Offset(all, PackCont(gt, pt))]
  {
    OffsetBefore(all, g + 1, 0, gt, pt);
    OffsetStep(all, g);
    FragSlice(all, g, p, |all[g].data|);
    var x := Offset(all, PackCont(g, p));
    var y := Offset(all, PackCont(g + 1, 0));
    var z := Offset(all, PackCont(gt, pt));
    SliceJoin(Flat(all), x, y, z);
    assert all[g].data[p..|all[g].data|] == all[g].data[p..];
  }

  /**
   * What the copy as written yields: the stream bytes up to (gt, pt),
   * but starting at the start position only when it lies in an earlier
   * fragment; when both lie in one fragment the copy starts at that
   * fragment's first byte.
   */
  lemma {:induction false} CopyFromToBytes(all: seq<Fragment>, g: nat, p: nat, gt: nat, pt: nat, k: int)
    requires ValidPos(all, PackCont(g, p)) && ValidPos(all, PackCont(gt, pt)) && g <= gt
    ensures Offset(all, PackCont(g, if g == gt then 0 else p)) <= Offset(all, PackCont(gt, pt)) <= |Flat(all)|
    ensures CopyFromTo(all, g, p, gt, pt, k).Ok? ==>
      CopyFromTo(all, g, p, gt, pt, k).value
        == Flat(all)[Offset(all, PackCont(g, if g == gt then 0 else p))..Offset(all, PackCont(gt, pt))]
    decreases gt - g
  {
    if g == gt {
      OffsetBefore(all, gt, 0, gt, pt);
      if gt < |all| {
        FragSlice(all, gt, 0, pt);
      }
    } else {
      SliceStep(all, g, p, gt, pt);
      CopyFromToBytes(all, g + 1, 0, gt, pt, k + 1);
    }
  }

  /** Offsets grow with the fragment index. */
  lemma {:induction false} OffsetMono(all: seq<Fragment>, a: nat, b: nat)
    requires a <= b <= |all|
    ensures Offset(all, PackCont(a, 0)) <= Offset(all, PackCont(b, 0))
    decreases b - a
  {
    if a < b {
      OffsetStep(all, a);
      OffsetMono(all, a + 1, b);
    }
  }

  /** std::string::substr's clamping of a length to what is there. */
  function Clamp(n: nat, len: nat): (r: nat)
    ensures r <= len && (r == n || r == len)
  {
    if n < len then n else len
  }

  /** The cursor from comes no later than the cursor to. */
  ghost predicate Before(all: seq<Fragment>, g: nat, p: nat, gt: nat, pt: nat)
  {
    g < gt || (g == gt && p <= pt)
  }

  /**
   * The evidently intended GetFromTo: the same walk and canary checks,
   * but the last fragment is copied from the cursor's own offset, so a
   * start inside the end's fragment is respected.
   */
  function CopyFromToIntended(all: seq<Fragment>, g: nat, p: nat, gt: nat, pt: nat, k: int): (r: Checked<string>)
    requires ValidPos(all, PackCont(g, p)) && ValidPos(all, PackCont(gt, pt)) && Before(all, g, p, gt, pt)
    decreases gt - g
  {
    if k > CanaryLimit then Aborted
    else if g == gt then
      if k + 1 > CanaryLimit then Aborted
      else if gt < |all| then Ok(all[gt].data[p..pt])
      else Ok("")
    else AppendTo(all[g].data[p..], CopyFromToIntended(all, g + 1, 0, gt, pt, k + 1))
  }

  /** One step of the intended copy's walk, when the canary has not fired. */
  lemma CopyFromToIntendedStep(all: seq<Fragment>, g: nat, p: nat, gt: nat, pt: nat, k: int)
    requires ValidPos(all, PackCont(g, p)) && ValidPos(all, PackCont(gt, pt)) && g < gt && k <= CanaryLimit
    ensures CopyFromToIntended(all, g, p, gt, pt, k)
      == AppendTo(all[g].data[p..], CopyFromToIntended(all, g + 1, 0, gt, pt, k + 1))
  {
  }

  /** The last step of the intended copy's walk, when the canary has not fired. */
  lemma CopyFromToIntendedEnd(all: seq<Fragment>, g: nat, p: nat, pt: nat, k: int)
    requires g < |all| && p <= pt <= |all[g].data| && k + 1 <= CanaryLimit
    ensures CopyFromToIntended(all, g, p, g, pt, k) == Ok(all[g].data[p..pt])
  {
  }

  /**
   * The intended copy yields exactly the stream bytes between the two
   * positions, and aborts exactly when the canary passes the limit.
   */
  lemma {:induction false} CopyFromToIntendedBytes(all: seq<Fragment>, g: nat, p: nat, gt: nat, pt: nat, k: int)
    requires ValidPos(all, PackCont(g, p)) && ValidPos(all, PackCont(gt, pt)) && Before(all, g, p, gt, pt)
    ensures Offset(all, PackCont(g, p)) <= Offset(all, PackCont(gt, pt)) <= |Flat(all)|
    ensures CopyFromToIntended(all, g, p, gt, pt, k).Aborted? <==> k + (gt - g) + 1 > CanaryLimit
    ensures CopyFromToIntended(all, g, p, gt, pt, k).Ok? ==>
      CopyFromToIntended(all, g, p, gt, pt, k).value == Flat(all)[Offset(all, PackCont(g, p))..Offset(all, PackCont(gt, pt))]
    decreases gt - g
  {
    OffsetBefore(all, g, p, gt, pt);
    if g == gt {
      if gt < |all| {
        FragSlice(all, gt, p, pt);
      }
    } else {
      SliceStep(all, g, p, gt, pt);
      CopyFromToIntendedBytes(all, g + 1, 0, gt, pt, k + 1);
    }
  }

  /** The copy as written is the intended copy whenever the start is not inside the end's fragment. */
  lemma CopyFromToAgrees(all: seq<Fragment>, g: nat, p: nat, gt: nat, pt: nat, k: int)
    requires ValidPos(all, PackCont(g, p)) && ValidPos(all, PackCont(gt, pt)) && Before(all, g, p, gt, pt)
    requires g < gt || p == 0
    ensures CopyFromTo(all, g, p, gt, pt, k) == CopyFromToIntended(all, g, p, gt, pt, k)
  {
    CopyFromToCanary(all, g, p, gt, pt, k);
    CopyFromToBytes(all, g, p, gt, pt, k);
    CopyFromToIntendedBytes(all, g, p, gt, pt, k);
  }

  /**
   * Two records in one fragment: for "a\nb\nc" the second record runs
   * from offset 2 to offset 4, yet the copy as written returns "a\nb\n"
   * where the bytes between the cursors are "b\n".
   */
  lemma CopyFromToSameFragment(st: Stamp)
    ensures var all := [Fragment(st, "a\nb\nc")];
      && CopyFromTo(all, 0, 2, 0, 4, 0) == Ok("a\nb\n")
      && CopyFromToIntended(all, 0, 2, 0, 4, 0) == Ok("b\n")
  {
    var all := [Fragment(st, "a\nb\nc")];
    assert all[..0] == [];
    assert all[0].data[2..4] == "b\n";
    assert all[0].data[..4] == "a\nb\n";
  }

  /**
   * PackNlDelEx::GetFromTo as written: appends to accum what the copy as
   * written yields (Aborted when the canary assert fires).
   */
  method GetFromTo(from: PackContIt, stop: PackContIt, accum: string) returns (r: Checked<string>)
    requires from.Valid() && stop.Valid() && from.fst == stop.fst && from.snd == stop.snd
    requires from.G() <= stop.G()
    ensures r == AppendTo(accum, CopyFromTo(from.All(), from.G(), from.cont.partNo, stop.G(), stop.cont.partNo, from.canary))
  {
    ghost var all := from.All();
    ghost var gt, pt := stop.G(), stop.cont.partNo;
    var it := new PackContIt.Copy(from);
    var walked := WalkToStop(it, stop, accum);
    if walked.Aborted? {
      return Aborted;
    }
    var acc := walked.value;
    ghost var g, p, k := it.G(), it.cont.partNo, it.canary - 1;
    var end := it.EndFragP();
    if end.Aborted? {
      return Aborted;
    }
    if !end.value {
      var head := it.CurFragData()[..Clamp(stop.cont.partNo, |it.CurFragData()|)];
      assert CopyFromTo(all, g, p, gt, pt, k) == Ok(head);
      acc := acc + head;
    } else {
      assert CopyFromTo(all, g, p, gt, pt, k) == Ok("");
      assert acc + "" == acc;
    }
    return Ok(acc);
  }

  /**
   * GetFromTo's loop as written: copies the rest of each fragment before
   * stop's, one SameFragP per fragment; on success the cursor is in
   * stop's fragment and what is left of the copy starts there, with the
   * canary as it was before the SameFragP that ended the loop.
   */
  method WalkToStop(it: PackContIt, stop: PackContIt, accum: string) returns (r: Checked<string>)
    requires it.Valid() && stop.Valid() && it != stop && it.fst == stop.fst && it.snd == stop.snd
    requires it.G() <= stop.G()
    modifies it
    ensures it.Valid()
    ensures r.Ok? ==> it.G() == stop.G()
    ensures old(AppendTo(accum, CopyFromTo(it.All(), it.G(), it.cont.partNo, stop.G(), stop.cont.partNo, it.canary)))
      == if r.Aborted? then Aborted
         else AppendTo(r.value, CopyFromTo(it.All(), it.G(), it.cont.partNo, stop.G(), stop.cont.partNo, it.canary - 1))
  {
    ghost var all := it.All();
    ghost var gt, pt := stop.G(), stop.cont.partNo;
    ghost var g, p, k := it.G(), it.cont.partNo, it.canary;
    ghost var total := CopyFromTo(all, g, p, gt, pt, k);
    var acc := accum;
    while true
      invariant it.Valid()
      invariant g == it.G() && p == it.cont.partNo && k == it.canary
      invariant ValidPos(all, PackCont(g, p)) && g <= gt
      invariant AppendTo(acc, CopyFromTo(all, g, p, gt, pt, k)) == AppendTo(accum, total)
      decreases gt - g
    {
      var same := it.SameFragP(stop);
      if same.Aborted? {
        return Aborted;
      }
      if same.value {
        break;
      }
      var part := it.CurFragData()[it.cont.partNo..];
      CopyFromToStep(all, g, p, gt, pt, k);
      AppendToTwice(acc, part, CopyFromTo(all, g + 1, 0, gt, pt, k + 1));
      acc := acc + part;
      it.AdvanceFrag();
      g, p, k := g + 1, 0, k + 1;
    }
    return Ok(acc);
  }

  /** One step of the copy's walk as written, when the canary has not fired. */
  lemma CopyFromToStep(all: seq<Fragment>, g: nat, p: nat, gt: nat, pt: nat, k: int)
    requires ValidPos(all, PackCont(g, p)) && g < gt <= |all| && k <= CanaryLimit
    ensures CopyFromTo(all, g, p, gt, pt, k)
      == AppendTo(all[g].data[p..], CopyFromTo(all, g + 1, 0, gt, pt, k + 1))
  {
  }

  /** A std::string slice pieced back together. */
  lemma SliceJoin(s: string, x: nat, y: nat, z: nat)
    requires x <= y <= z <= |s|
    ensures s[x..y] + s[y..z] == s[x..z]
  {
  }

  /**
   * The evidently intended GetFromTo: the same walk, but the last
   * fragment is copied from the cursor's own offset, so a start inside the
   * end's fragment is respected.
   */
  method GetFromToIntended(from: PackContIt, stop: PackContIt, accum: string) returns (r: Checked<string>)
    requires from.Valid() && stop.Valid() && from.fst == stop.fst && from.snd == stop.snd
    requires Before(from.All(), from.G(), from.cont.partNo, stop.G(), stop.cont.partNo)
    ensures r == AppendTo(accum, CopyFromToIntended(from.All(), from.G(), from.cont.partNo, stop.G(), stop.cont.partNo, from.canary))
  {
    ghost var all := from.All();
    ghost var pt := stop.cont.partNo;
    var it := new PackContIt.Copy(from);
    var walked := WalkToStopIntended(it, stop, accum);
    if walked.Aborted? {
      return Aborted;
    }
    var acc := walked.value;
    ghost var g, p, k := it.G(), it.cont.partNo, it.canary - 1;
    var end := it.EndFragP();
    if end.Aborted? {
      return Aborted;
    }
    if !end.value {
      var tail := it.CurFragData()[it.cont.partNo..stop.cont.partNo];
      CopyFromToIntendedEnd(all, g, p, pt, k);
      acc := acc + tail;
    } else {
      assert acc + "" == acc;
    }
    return Ok(acc);
  }

  /**
   * The loop of the intended GetFromTo, the same as the loop as written:
   * on success the cursor is in stop's fragment, not past stop, and what
   * is left of the copy starts there, with the canary as it was before
   * the SameFragP that ended the loop.
   */
  method WalkToStopIntended(it: PackContIt, stop: PackContIt, accum: string) returns (r: Checked<string>)
    requires it.Valid() && stop.Valid() && it != stop && it.fst == stop.fst && it.snd == stop.snd
    requires Before(it.All(), it.G(), it.cont.partNo, stop.G(), stop.cont.partNo)
    modifies it
    ensures it.Valid()
    ensures r.Ok? ==> it.G() == stop.G() && it.cont.partNo <= stop.cont.partNo
    ensures old(AppendTo(accum, CopyFromToIntended(it.All(), it.G(), it.cont.partNo, stop.G(), stop.cont.partNo, it.canary)))
      == if r.Aborted? then Aborted
         else AppendTo(r.value, CopyFromToIntended(it.All(), it.G(), it.cont.partNo, stop.G(), stop.cont.partNo, it.canary - 1))
  {
    ghost var all := it.All();
    ghost var gt, pt := stop.G(), stop.cont.partNo;
    ghost var g, p, k := it.G(), it.cont.partNo, it.canary;
    assert ValidPos(all, PackCont(gt, pt));
    ghost var total := CopyFromToIntended(all, g, p, gt, pt, k);
    var acc := accum;
    while true
      invariant it.Valid()
      invariant g == it.G() && p == it.cont.partNo && k == it.canary
      invariant ValidPos(all, PackCont(g, p)) && ValidPos(all, PackCont(gt, pt)) && Before(all, g, p, gt, pt)
      invariant AppendTo(acc, CopyFromToIntended(all, g, p, gt, pt, k)) == AppendTo(accum, total)
      decreases gt - g
    {
      var same := it.SameFragP(stop);
      if same.Aborted? {
        return Aborted;
      }
      if same.value {
        break;
      }
      var part := it.CurFragData()[it.cont.partNo..];
      CopyFromToIntendedStep(all, g, p, gt, pt, k);
      AppendToTwice(acc, part, CopyFromToIntended(all, g + 1, 0, gt, pt, k + 1));
      acc := acc + part;
      it.AdvanceFrag();
      g, p, k := g + 1, 0, k + 1;
    }
    return Ok(acc);
  }

  /** One record taken by GetPacket: its bytes, the cursor past it and the cursor's canary. */
  datatype Took = Took(record: string, at: PackCont, canary: int)

  /** GetPacket as written: the next record from (g, p), none, or the canary assert. */
  function NextPacketAsWritten(all: seq<Fragment>, g: nat, p: nat, k: int): (r: Checked<Option<Took>>)
    requires ValidPos(all, PackCont(g, p))
    ensures r.Ok? && r.value.Some? ==>
      && ValidPos(all, r.value.value.at) && Before(all, g, p, r.value.value.at.fragNo, r.value.value.at.partNo)
      && k < r.value.value.canary <= CanaryLimit + 1
  {
    ScanFromFound(all, g, p, k);
    match ScanFrom(all, g, p, k)
    case ScanAborted => Aborted
    case NotFound => Ok(None)
    case Found(at, k2) =>
      match CopyFromTo(all, g, p, at.fragNo, at.partNo, k)
      case Aborted => Aborted
      case Ok(s) => Ok(Some(Took(s, at, k2)))
  }

  /** GetPacket with the intended copy: the next record from (g, p), none, or the canary assert. */
  function NextPacket(all: seq<Fragment>, g: nat, p: nat, k: int): (r: Checked<Option<Took>>)
    requires ValidPos(all, PackCont(g, p))
    ensures r.Ok? && r.value.Some? ==>
      && ValidPos(all, r.value.value.at) && Before(all, g, p, r.value.value.at.fragNo, r.value.value.at.partNo)
      && k < r.value.value.canary <= CanaryLimit + 1
  {
    ScanFromFound(all, g, p, k);
    match ScanFrom(all, g, p, k)
    case ScanAborted => Aborted
    case NotFound => Ok(None)
    case Found(at, k2) =>
      match CopyFromToIntended(all, g, p, at.fragNo, at.partNo, k)
      case Aborted => Aborted
      case Ok(s) => Ok(Some(Took(s, at, k2)))
  }

  /**
   * PackNlDelEx::GetPacket as written: find the end of the next record
   * and append the bytes from the old cursor with the copy as written.
   */
  method GetPacket(pos: PackContIt, out: string) returns (r: Checked<bool>, out': string)
    requires pos.Valid()
    modifies pos
    ensures match NextPacketAsWritten(pos.All(), old(pos.G()), old(pos.cont.partNo), old(pos.canary))
      case Aborted => r == Aborted
      case Ok(None) => r == Ok(false) && out' == out && pos.cont == old(pos.cont) && pos.canary == old(pos.canary)
      case Ok(Some(t)) =>
        && r == Ok(true) && out' == out + t.record && pos.Valid()
        && pos.G() == t.at.fragNo && pos.cont.partNo == t.at.partNo && pos.canary == t.canary
  {
    ScanFromFound(pos.All(), pos.G(), pos.cont.partNo, pos.canary);
    var start := new PackContIt.Copy(pos);
    out' := out;
    var found := ReadyPacketPos(pos);
    if found.Aborted? {
      return Aborted, out';
    }
    if !found.value {
      return Ok(false), out';
    }
    var copied := GetFromTo(start, pos, out);
    if copied.Aborted? {
      return Aborted, out';
    }
    return Ok(true), copied.value;
  }

  /** The corrected GetPacket: the same steps with the intended copy. */
  method GetPacketIntended(pos: PackContIt, out: string) returns (r: Checked<bool>, out': string)
    requires pos.Valid()
    modifies pos
    ensures match NextPacket(pos.All(), old(pos.G()), old(pos.cont.partNo), old(pos.canary))
      case Aborted => r == Aborted
      case Ok(None) => r == Ok(false) && out' == out && pos.cont == old(pos.cont) && pos.canary == old(pos.canary)
      case Ok(Some(t)) =>
        && r == Ok(true) && out' == out + t.record && pos.Valid()
        && pos.G() == t.at.fragNo && pos.cont.partNo == t.at.partNo && pos.canary == t.canary
  {
    ScanFromFound(pos.All(), pos.G(), pos.cont.partNo, pos.canary);
    var start := new PackContIt.Copy(pos);
    out' := out;
    var found := ReadyPacketPos(pos);
    if found.Aborted? {
      return Aborted, out';
    }
    if !found.value {
      return Ok(false), out';
    }
    var copied := GetFromToIntended(start, pos, out);
    if copied.Aborted? {
      return Aborted, out';
    }
    return Ok(true), copied.value;
  }

  /** The records a pass takes and the cursor left past the last one. */
  datatype Extracted = Extracted(records: seq<string>, final: PackCont)

  /**
   * The corrected pass: GetPacket with the intended copy called until it
   * reports no further record, from (g, p) with canary k.
   */
  function Packetize(all: seq<Fragment>, g: nat, p: nat, k: int): (r: Checked<Extracted>)
    requires ValidPos(all, PackCont(g, p))
    ensures r.Ok? ==> ValidPos(all, r.value.final)
    decreases CanaryLimit + 1 - k
  {
    match NextPacket(all, g, p, k)
    case Aborted => Aborted
    case Ok(None) => Ok(Extracted([], PackCont(g, p)))
    case Ok(Some(t)) =>
      match Packetize(all, t.at.fragNo, t.at.partNo, t.canary)
      case Aborted => Aborted
      case Ok(e) => Ok(Extracted([t.record] + e.records, e.final))
  }

  /** The records glued back together, first one first. */
  function Concat(records: seq<string>): string
  {
    if records == [] then "" else records[0] + Concat(records[1..])
  }

  /** A record: bytes ending in its only '\n'. */
  ghost predicate IsRecord(s: string)
  {
    |s| > 0 && s[|s| - 1] == '\n' && NoNewline(s, 0, |s| - 1)
  }

  /** A stretch ending in its only '\n' is a record. */
  lemma SliceIsRecord(s: string, a: nat, b: nat)
    requires a < b <= |s| && s[b - 1] == '\n' && NoNewline(s, a, b - 1)
    ensures IsRecord(s[a..b])
  {
    forall i | 0 <= i < b - a - 1
      ensures s[a..b][i] != '\n'
    {
      assert s[a..b][i] == s[a + i];
    }
  }

  /** The bytes from the start to a found position form one record. */
  lemma FoundIsRecord(all: seq<Fragment>, start: nat, at: PackCont)
    requires FoundMeans(all, start, at)
    ensures IsRecord(Flat(all)[start..Offset(all, at)])
  {
    SliceIsRecord(Flat(all), start, Offset(all, at));
  }

  /**
   * What a packetizing pass promises: the records are consecutive
   * newline-terminated pieces of the stream from the start, and no '\n'
   * remains after the final cursor.
   */
  lemma {:induction false} PacketizeMeaning(all: seq<Fragment>, g: nat, p: nat, k: int)
    requires ValidPos(all, PackCont(g, p))
    ensures Packetize(all, g, p, k).Ok? ==>
      var e := Packetize(all, g, p, k).value;
      && Offset(all, PackCont(g, p)) <= Offset(all, e.final) <= |Flat(all)|
      && Concat(e.records) == Flat(all)[Offset(all, PackCont(g, p))..Offset(all, e.final)]
      && (forall i :: 0 <= i < |e.records| ==> IsRecord(e.records[i]))
      && NoNewline(Flat(all), Offset(all, e.final), |Flat(all)|)
    decreases CanaryLimit + 1 - k
  {
    ScanFromMeaning(all, g, p, k);
    SuffixFromBytes(all, PackCont(g, p));
    match NextPacket(all, g, p, k)
    case Aborted =>
    case Ok(None) =>
    case Ok(Some(t)) =>
      var scan := ScanFrom(all, g, p, k);
      assert scan.Found? && scan.at == t.at;
      CopyFromToIntendedBytes(all, g, p, t.at.fragNo, t.at.partNo, k);
      FoundIsRecord(all, Offset(all, PackCont(g, p)), t.at);
      PacketizeMeaning(all, t.at.fragNo, t.at.partNo, t.canary);
      if Packetize(all, g, p, k).Ok? {
        var e := Packetize(all, t.at.fragNo, t.at.partNo, t.canary).value;
        var x, y, z := Offset(all, PackCont(g, p)), Offset(all, t.at), Offset(all, e.final);
        assert Concat([t.record] + e.records) == t.record + Concat(e.records) by {
          assert ([t.record] + e.records)[1..] == e.records;
        }
        SliceJoin(Flat(all), x, y, z);
      }
  }

  /**
   * The loop of PipePacket::RemakeForRead: GetPacket as written called
   * until it reports no further record, from (g, p) with canary k.
   */
  function PacketizeAsWritten(all: seq<Fragment>, g: nat, p: nat, k: int): (r: Checked<Extracted>)
    requires ValidPos(all, PackCont(g, p))
    ensures r.Ok? ==> ValidPos(all, r.value.final)
    decreases CanaryLimit + 1 - k
  {
    match NextPacketAsWritten(all, g, p, k)
    case Aborted => Aborted
    case Ok(None) => Ok(Extracted([], PackCont(g, p)))
    case Ok(Some(t)) =>
      match PacketizeAsWritten(all, t.at.fragNo, t.at.partNo, t.canary)
      case Aborted => Aborted
      case Ok(e) => Ok(Extracted([t.record] + e.records, e.final))
  }

  /** s ends with t. */
  ghost predicate EndsWith(s: string, t: string)
  {
    |t| <= |s| && s[|s| - |t|..] == t
  }

  /**
   * A pass as written against the corrected pass: the same final cursor,
   * as many records, and each record as written ends with the corrected
   * record.
   */
  ghost predicate Widens(aw: Extracted, c: Extracted)
  {
    && aw.final == c.final && |aw.records| == |c.records|
    && forall i :: 0 <= i < |aw.records| ==> EndsWith(aw.records[i], c.records[i])
  }

  /**
   * One GetPacket as written against the corrected one: the same outcome,
   * cursor and canary; the record as written ends with the corrected
   * record, and is that record when it starts at a fragment's first byte
   * or in an earlier fragment than its '\n'.
   */
  lemma NextPacketAsWrittenShape(all: seq<Fragment>, g: nat, p: nat, k: int)
    requires ValidPos(all, PackCont(g, p))
    ensures NextPacketAsWritten(all, g, p, k).Aborted? <==> NextPacket(all, g, p, k).Aborted?
    ensures NextPacketAsWritten(all, g, p, k).Ok? ==>
      var a := NextPacketAsWritten(all, g, p, k).value;
      var c := NextPacket(all, g, p, k).value;
      && (a.Some? <==> c.Some?)
      && (a.Some? ==>
        && a.value.at == c.value.at && a.value.canary == c.value.canary
        && EndsWith(a.value.record, c.value.record)
        && (p == 0 || g < a.value.at.fragNo ==> a.value.record == c.value.record))
  {
    ScanFromFound(all, g, p, k);
    match ScanFrom(all, g, p, k)
    case ScanAborted =>
    case NotFound =>
    case Found(at, k2) =>
      CopyFromToCanary(all, g, p, at.fragNo, at.partNo, k);
      CopyFromToIntendedBytes(all, g, p, at.fragNo, at.partNo, k);
      if g < at.fragNo || p == 0 {
        CopyFromToAgrees(all, g, p, at.fragNo, at.partNo, k);
      } else {
        var d := all[g].data;
        assert d[..at.partNo][at.partNo - (at.partNo - p)..] == d[p..at.partNo];
      }
  }

  /**
   * The pass as written aborts exactly when the corrected pass does;
   * otherwise it ends at the same cursor with as many records, each
   * ending with the corrected record (see PacketizeMeaning).
   */
  lemma {:induction false} PacketizeAsWrittenMeaning(all: seq<Fragment>, g: nat, p: nat, k: int)
    requires ValidPos(all, PackCont(g, p))
    ensures PacketizeAsWritten(all, g, p, k).Aborted? <==> Packetize(all, g, p, k).Aborted?
    ensures PacketizeAsWritten(all, g, p, k).Ok? ==>
      Widens(PacketizeAsWritten(all, g, p, k).value, Packetize(all, g, p, k).value)
    decreases CanaryLimit + 1 - k
  {
    NextPacketAsWrittenShape(all, g, p, k);
    match NextPacket(all, g, p, k)
    case Aborted =>
    case Ok(None) =>
    case Ok(Some(t)) =>
      PacketizeAsWrittenMeaning(all, t.at.fragNo, t.at.partNo, t.canary);
      if PacketizeAsWritten(all, g, p, k).Ok? {
        var r := NextPacketAsWritten(all, g, p, k).value.value;
        var a := PacketizeAsWritten(all, t.at.fragNo, t.at.partNo, t.canary).value;
        var c := Packetize(all, t.at.fragNo, t.at.partNo, t.canary).value;
        var ar, cr := [r.record] + a.records, [t.record] + c.records;
        assert PacketizeAsWritten(all, g, p, k).value == Extracted(ar, a.final);
        assert Packetize(all, g, p, k).value == Extracted(cr, c.final);
        forall i | 0 <= i < |ar|
          ensures EndsWith(ar[i], cr[i])
        {
          if i > 0 {
            assert ar[i] == a.records[i - 1] && cr[i] == c.records[i - 1];
          }
        }
      }
  }

  /** No fragment holds two '\n'. */
  ghost predicate OneNewlinePerFragment(frags: seq<Fragment>)
  {
    forall f, i, j :: 0 <= f < |frags| && 0 <= i < j < |frags[f].data| && frags[f].data[i] == '\n' ==> frags[f].data[j] != '\n'
  }

  /**
   * A found position is a fragment's start or lies just past a '\n' of
   * its fragment, after the start offset when it is in the start's
   * fragment.
   */
  lemma {:induction false} ScanFromLands(all: seq<Fragment>, g: nat, p: nat, canary: int)
    requires g <= |all|
    ensures var r := ScanFrom(all, g, p, canary);
      r.Found? && r.at.partNo > 0 ==>
        && r.at.fragNo < |all| && r.at.partNo <= |all[r.at.fragNo].data|
        && all[r.at.fragNo].data[r.at.partNo - 1] == '\n'
        && (r.at.fragNo == g ==> p < r.at.partNo)
    decreases |all| - g
  {
    if canary <= CanaryLimit && g < |all| && FindNl(all[g].data, p).None? {
      ScanFromLands(all, g + 1, 0, canary + 1);
      ScanFromFound(all, g + 1, 0, canary + 1);
    }
  }

  /**
   * Where no fragment holds two '\n', the pass as written takes exactly
   * the corrected records, from the first byte or from just past a '\n'.
   */
  lemma {:induction false} PacketizeOneNewlineAgrees(all: seq<Fragment>, g: nat, p: nat, k: int)
    requires ValidPos(all, PackCont(g, p)) && OneNewlinePerFragment(all)
    requires p == 0 || all[g].data[p - 1] == '\n'
    ensures PacketizeAsWritten(all, g, p, k) == Packetize(all, g, p, k)
    decreases CanaryLimit + 1 - k
  {
    NextPacketAsWrittenShape(all, g, p, k);
    ScanFromLands(all, g, p, k);
    match NextPacket(all, g, p, k)
    case Aborted =>
    case Ok(None) =>
    case Ok(Some(t)) =>
      if t.at.fragNo == g && p > 0 {
        assert false;
      }
      PacketizeOneNewlineAgrees(all, t.at.fragNo, t.at.partNo, t.canary);
  }

  /**
   * Two records in one fragment: for "a\nb\nc" the pass as written takes
   * "a\n" and then "a\nb\n", the corrected pass "a\n" and "b\n".
   */
  lemma PacketizeDuplicates(st: Stamp)
    ensures var all := [Fragment(st, "a\nb\nc")];
      && PacketizeAsWritten(all, 0, 0, 0) == Ok(Extracted(["a\n", "a\nb\n"], PackCont(0, 4)))
      && Packetize(all, 0, 0, 0) == Ok(Extracted(["a\n", "b\n"], PackCont(0, 4)))
  {
    var all := [Fragment(st, "a\nb\nc")];
    var d := all[0].data;
    assert FindNl(d, 0) == Some(1);
    assert FindNl(d, 2) == Some(3);
    assert FindNl(d, 4) == None by {
      assert FindNl(d, 5) == None;
    }
    assert ScanFrom(all, 0, 0, 0) == Found(PackCont(0, 2), 1);
    assert ScanFrom(all, 0, 2, 1) == Found(PackCont(0, 4), 2);
    assert ScanFrom(all, 0, 4, 2) == NotFound by {
      assert ScanFrom(all, 1, 0, 3) == NotFound;
    }
    assert d[..2] == "a\n" && d[..4] == "a\nb\n" && d[0..2] == "a\n" && d[2..4] == "b\n";
    assert NextPacketAsWritten(all, 0, 0, 0) == Ok(Some(Took("a\n", PackCont(0, 2), 1)));
    assert NextPacketAsWritten(all, 0, 2, 1) == Ok(Some(Took("a\nb\n", PackCont(0, 4), 2)));
    assert NextPacket(all, 0, 0, 0) == Ok(Some(Took("a\n", PackCont(0, 2), 1)));
    assert NextPacket(all, 0, 2, 1) == Ok(Some(Took("b\n", PackCont(0, 4), 2)));
    assert PacketizeAsWritten(all, 0, 4, 2) == Ok(Extracted([], PackCont(0, 4)));
    assert Packetize(all, 0, 4, 2) == Ok(Extracted([], PackCont(0, 4)));
    assert ["a\nb\n"] + [] == ["a\nb\n"] && ["b\n"] + [] == ["b\n"];
    assert PacketizeAsWritten(all, 0, 2, 1) == Ok(Extracted(["a\nb\n"], PackCont(0, 4)));
    assert Packetize(all, 0, 2, 1) == Ok(Extracted(["b\n"], PackCont(0, 4)));
    assert ["a\n"] + ["a\nb\n"] == ["a\n", "a\nb\n"] && ["a\n"] + ["b\n"] == ["a\n", "b\n"];
  }
}
