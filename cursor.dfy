/**
 * The two-sequence cursor PackContIt. A position (fragNo, partNo, inIn)
 * walks an already buffered sequence fst and then a freshly read
 * sequence snd without copying either.
 *
 * The proofs view a position as a global fragment index g into
 * fst + snd (g < |fst| exactly when inIn) plus the byte offset partNo.
 */
module Cursor {
  import opened Wrappers
  import opened Fragments

  /** NetData::PackContR. */
  datatype PackContR = PackContR(fragNo: nat, partNo: nat, inIn: bool)

  /** The value every PackContIt starts its canary_limit at. */
  const CanaryLimit: int := 1000

  /** The index of the position's fragment in fst + snd. */
  function Global(fst: seq<Fragment>, c: PackContR): nat
  {
    if c.inIn then c.fragNo else |fst| + c.fragNo
  }

  /** The cursor position that names fragment g of fst + snd. */
  function AtGlobal(fst: seq<Fragment>, g: nat, p: nat): PackContR
  {
    if g < |fst| then PackContR(g, p, true) else PackContR(g - |fst|, p, false)
  }

  /** The fragment index exists in its sequence (or is the end of snd). */
  predicate ValidFrag(fst: seq<Fragment>, snd: seq<Fragment>, c: PackContR)
  {
    (c.inIn ==> c.fragNo < |fst|) && (!c.inIn ==> c.fragNo <= |snd|)
  }

  /** The cursor invariant: a valid fragment and an offset inside it (0 at the end). */
  predicate ValidCont(fst: seq<Fragment>, snd: seq<Fragment>, c: PackContR)
  {
    ValidFrag(fst, snd, c) && ValidPos(fst + snd, PackCont(Global(fst, c), c.partNo))
  }

  /** A valid position is determined by its global fragment index and offset. */
  lemma GlobalRoundTrip(fst: seq<Fragment>, snd: seq<Fragment>, c: PackContR)
    requires ValidFrag(fst, snd, c)
    ensures Global(fst, c) <= |fst| + |snd|
    ensures AtGlobal(fst, Global(fst, c), c.partNo) == c
  {
  }

  /** Every global index up to the end names a valid fragment, at the right index. */
  lemma AtGlobalValid(fst: seq<Fragment>, snd: seq<Fragment>, g: nat, p: nat)
    requires g <= |fst| + |snd|
    ensures ValidFrag(fst, snd, AtGlobal(fst, g, p))
    ensures Global(fst, AtGlobal(fst, g, p)) == g
    ensures AtGlobal(fst, g, p).partNo == p
  {
  }

  /** NetStuff::PackContIt. fst and snd are the const deques it points at. */
  class PackContIt {
    const fst: seq<Fragment>
    const snd: seq<Fragment>
    var cont: PackContR
    var canary: int

    /** fst followed by snd. */
    function All(): seq<Fragment>
    {
      fst + snd
    }

    /** The global fragment index of the current position. */
    function G(): nat
      reads this
    {
      Global(fst, cont)
    }

    ghost predicate Valid()
      reads this
    {
      ValidCont(fst, snd, cont) && 0 <= canary
    }

    /** Starts at (0, 0, |fst| > 0): an empty fst is skipped. */
    constructor (fst: seq<Fragment>, snd: seq<Fragment>)
      ensures this.fst == fst && this.snd == snd
      ensures cont == PackContR(0, 0, |fst| > 0) && canary == 0
      ensures Valid() && G() == 0
    {
      this.fst := fst;
      this.snd := snd;
      cont := PackContR(0, 0, |fst| > 0);
      canary := 0;
    }

    /** The copy constructor. */
    constructor Copy(other: PackContIt)
      ensures fst == other.fst && snd == other.snd
      ensures cont == other.cont && canary == other.canary
    {
      fst := other.fst;
      snd := other.snd;
      cont := other.cont;
      canary := other.canary;
    }

    /** Copy assignment between iterators over the same two sequences. */
    method Assign(other: PackContIt)
      requires other.fst == fst && other.snd == snd
      modifies this
      ensures cont == old(other.cont) && canary == old(other.canary)
    {
      cont := other.cont;
      canary := other.canary;
    }

    /** The bytes of the current fragment (at() would throw at the end, where no caller asks). */
    function CurFragData(): (r: string)
      reads this
      requires Valid() && G() < |All()|
      ensures r == All()[G()].data
    {
      if cont.inIn then fst[cont.fragNo].data else snd[cont.fragNo].data
    }

    /** Sets partNo to w, clamped to the current fragment's length (0 past the end). */
    method AdvanceToPart(w: nat)
      requires ValidFrag(fst, snd, cont)
      modifies this`cont
      ensures Valid() == (0 <= canary)
      ensures cont.fragNo == old(cont.fragNo) && cont.inIn == old(cont.inIn)
      ensures cont.partNo == if G() < |All()| then (if w < |All()[G()].data| then w else |All()[G()].data|) else 0
    {
      var curr := if cont.inIn then fst else snd;
      var len := if cont.fragNo >= |curr| then 0 else |curr[cont.fragNo].data|;
      cont := cont.(partNo := if w < len then w else len);
    }

    /**
     * Moves to the next fragment, from the last of fst to the start of
     * snd, and stays at the end of snd once there; partNo becomes 0.
     */
    method AdvanceFrag()
      requires ValidFrag(fst, snd, cont) && 0 <= canary
      modifies this`cont
      ensures Valid()
      ensures G() == if old(G()) < |All()| then old(G()) + 1 else |All()|
      ensures cont.partNo == 0
    {
      var curr := if cont.inIn then fst else snd;
      if cont.fragNo > |curr| {
        assert false;
      }
      var nFp := if cont.fragNo + 1 < |curr| then cont.fragNo + 1 else |curr|;
      if cont.inIn && nFp == |curr| {
        cont := PackContR(0, 0, false);
      } else {
        cont := cont.(fragNo := nFp);
      }
      AdvanceToPart(0);
    }

    /** Moves one byte on; on reaching the fragment's length, moves to the next fragment. */
    method AdvancePart()
      requires Valid() && G() < |All()|
      modifies this`cont
      ensures Valid()
      ensures old(cont.partNo) + 1 < |All()[old(G())].data| ==>
        G() == old(G()) && cont.partNo == old(cont.partNo) + 1
      ensures old(cont.partNo) + 1 >= |All()[old(G())].data| ==>
        G() == old(G()) + 1 && cont.partNo == 0
    {
      var len := |CurFragData()|;
      cont := cont.(partNo := cont.partNo + 1);
      if cont.partNo >= len {
        AdvanceFrag();
      }
    }

    /** True at the end of snd; bumps the canary, and aborts once it has passed the limit. */
    method EndFragP() returns (r: Checked<bool>)
      requires Valid()
      modifies this`canary
      ensures canary == old(canary) + 1
      ensures r == if old(canary) > CanaryLimit then Aborted else Ok(G() == |All()|)
    {
      var c := canary;
      canary := canary + 1;
      if c > CanaryLimit {
        return Aborted;
      }
      r := Ok(!cont.inIn && cont.fragNo == |snd|);
    }

    /** True when both cursors are on the same fragment (offsets are ignored); bumps the canary like EndFragP. */
    method SameFragP(rhs: PackContIt) returns (r: Checked<bool>)
      requires Valid() && rhs.Valid() && rhs.fst == fst && rhs.snd == snd
      modifies this`canary
      ensures canary == old(canary) + 1
      ensures rhs.cont == old(rhs.cont)
      ensures r == if old(canary) > CanaryLimit then Aborted else Ok(old(G()) == old(rhs.G()))
    {
      var c := canary;
      canary := canary + 1;
      if c > CanaryLimit {
        return Aborted;
      }
      GlobalRoundTrip(fst, snd, cont);
      GlobalRoundTrip(fst, snd, rhs.cont);
      r := Ok(cont.inIn == rhs.cont.inIn && cont.fragNo == rhs.cont.fragNo);
    }
  }
}
