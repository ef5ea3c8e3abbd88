/**
 * Byte fragments (NetData::Fragment) and the two deque-maintenance
 * primitives ErasePrefixTo and CopySuffixFrom.
 *
 * A deque<Fragment> that several owners reach through a shared_ptr is a
 * FragBuf object; a deque passed by const reference is a seq<Fragment>.
 */
module Fragments {
  import opened Wrappers

  /** NetData::Stamp is a uint32_t. */
  newtype Stamp = x: int | 0 <= x < 0x1_0000_0000

  /** The stamp every fragment is created with; no logic ever reads a stamp. */
  const EmptyStamp: Stamp := 0xBBAACCFF

  datatype Fragment = Fragment(stamp: Stamp, data: string)

  /** An absolute position (fragment index, byte offset) in one fragment sequence. */
  datatype PackCont = PackCont(fragNo: nat, partNo: nat)

  /** The byte stream a fragment sequence stands for. */
  function Flat(frags: seq<Fragment>): string
  {
    if frags == [] then [] else frags[0].data + Flat(frags[1..])
  }

  lemma {:induction false} FlatAppend(a: seq<Fragment>, b: seq<Fragment>)
    ensures Flat(a + b) == Flat(a) + Flat(b)
  {
    if a == [] {
      assert a + b == b;
    } else {
      assert (a + b)[1..] == a[1..] + b;
      FlatAppend(a[1..], b);
    }
  }

  /** Flat of a prefix one fragment longer. */
  lemma FlatPrefixStep(frags: seq<Fragment>, k: nat)
    requires k < |frags|
    ensures Flat(frags[..k + 1]) == Flat(frags[..k]) + frags[k].data
  {
    assert frags[..k + 1] == frags[..k] + [frags[k]];
    FlatAppend(frags[..k], [frags[k]]);
    assert [frags[k]][1..] == [];
  }

  /** Cutting the sequence before fragment k splits its byte stream at |Flat(frags[..k])|. */
  lemma FlatSplitAt(frags: seq<Fragment>, k: nat)
    requires k < |frags|
    ensures Flat(frags) == Flat(frags[..k]) + frags[k].data + Flat(frags[k + 1..])
  {
    assert frags == frags[..k] + frags[k..];
    FlatAppend(frags[..k], frags[k..]);
    assert frags[k..][1..] == frags[k + 1..];
  }

  /** std::string::substr(0, partNo): the prefix, clamped to the length. */
  function SplitFragPrefix(f: Fragment, partNo: nat): (r: string)
    ensures |r| == if partNo <= |f.data| then partNo else |f.data|
    ensures r <= f.data
  {
    if partNo <= |f.data| then f.data[..partNo] else f.data
  }

  /** std::string::substr(partNo, npos): the suffix; throws std::out_of_range past the end. */
  function SplitFragSuffix(f: Fragment, partNo: nat): (r: Option<string>)
    ensures r.Some? <==> partNo <= |f.data|
    ensures r.Some? ==> SplitFragPrefix(f, partNo) + r.value == f.data
  {
    if partNo <= |f.data| then Some(f.data[partNo..]) else None
  }

  /** A position that names a byte of the sequence, or its end. */
  predicate ValidPos(frags: seq<Fragment>, pc: PackCont)
  {
    (pc.fragNo < |frags| && pc.partNo <= |frags[pc.fragNo].data|) ||
    (pc.fragNo == |frags| && pc.partNo == 0)
  }

  /** The total length of the first k fragments. */
  function PrefixLen(frags: seq<Fragment>, k: nat): nat
    requires k <= |frags|
  {
    if k == 0 then 0 else PrefixLen(frags, k - 1) + |frags[k - 1].data|
  }

  /** The first k fragments carry PrefixLen(frags, k) bytes. */
  lemma {:induction false} PrefixLenFlat(frags: seq<Fragment>, k: nat)
    requires k <= |frags|
    ensures PrefixLen(frags, k) == |Flat(frags[..k])|
  {
    if k == 0 {
      assert frags[..0] == [];
    } else {
      PrefixLenFlat(frags, k - 1);
      FlatPrefixStep(frags, k - 1);
    }
  }

  /** The byte offset of a position in Flat(frags). */
  function Offset(frags: seq<Fragment>, pc: PackCont): nat
    requires pc.fragNo <= |frags|
  {
    PrefixLen(frags, pc.fragNo) + pc.partNo
  }

  /** The fragments from a position on: what CopySuffixFrom appends when it succeeds. */
  function SuffixFrom(frags: seq<Fragment>, pc: PackCont): seq<Fragment>
    requires ValidPos(frags, pc)
  {
    if pc.fragNo == |frags| then []
    else [Fragment(frags[pc.fragNo].stamp, frags[pc.fragNo].data[pc.partNo..])] + frags[pc.fragNo + 1..]
  }

  /** The fragments before a position, the last one cut with SplitFragPrefix. */
  function PrefixTo(frags: seq<Fragment>, pc: PackCont): seq<Fragment>
    requires ValidPos(frags, pc)
  {
    if pc.fragNo == |frags| then frags
    else frags[..pc.fragNo] + [Fragment(frags[pc.fragNo].stamp, SplitFragPrefix(frags[pc.fragNo], pc.partNo))]
  }

  /** Flat of a sequence with one fragment in front. */
  lemma FlatCons(f: Fragment, rest: seq<Fragment>)
    ensures Flat([f] + rest) == f.data + Flat(rest)
  {
    assert ([f] + rest)[1..] == rest;
  }

  /** Flat of a single fragment. */
  lemma FlatSingle(f: Fragment)
    ensures Flat([f]) == f.data
  {
    assert [f][1..] == [];
  }

  /** A string is its prefix followed by its suffix. */
  lemma TakeDrop(s: string, i: nat)
    requires i <= |s|
    ensures s[..i] + s[i..] == s
  {
  }

  /** Dropping a prefix and the start of the middle part of a concatenation. */
  lemma DropMiddle(pre: string, x: string, y: string, post: string)
    ensures (pre + (x + y) + post)[|pre| + |x|..] == y + post
  {
  }

  /** Regrouping four concatenated strings. */
  lemma Regroup(a: string, x: string, y: string, b: string)
    ensures (a + x) + (y + b) == a + (x + y) + b
  {
  }

  /** The suffix from a position carries exactly the bytes after its offset. */
  lemma SuffixFromBytes(frags: seq<Fragment>, pc: PackCont)
    requires ValidPos(frags, pc)
    ensures Offset(frags, pc) <= |Flat(frags)|
    ensures Flat(SuffixFrom(frags, pc)) == Flat(frags)[Offset(frags, pc)..]
  {
    var k := pc.fragNo;
    PrefixLenFlat(frags, k);
    if k == |frags| {
      assert frags[..k] == frags;
    } else {
      var f := frags[k];
      var head := Fragment(f.stamp, f.data[pc.partNo..]);
      FlatSplitAt(frags, k);
      FlatCons(head, frags[k + 1..]);
      TakeDrop(f.data, pc.partNo);
      DropMiddle(Flat(frags[..k]), f.data[..pc.partNo], head.data, Flat(frags[k + 1..]));
    }
  }

  /** Cutting at a position and gluing the halves back gives the original stream. */
  lemma CutRoundTrip(frags: seq<Fragment>, pc: PackCont)
    requires ValidPos(frags, pc)
    ensures Flat(PrefixTo(frags, pc)) + Flat(SuffixFrom(frags, pc)) == Flat(frags)
    ensures |Flat(PrefixTo(frags, pc))| == Offset(frags, pc)
  {
    var k := pc.fragNo;
    PrefixLenFlat(frags, k);
    if k == |frags| {
      assert frags[..k] == frags;
    } else {
      var f := frags[k];
      var cut := Fragment(f.stamp, SplitFragPrefix(f, pc.partNo));
      var head := Fragment(f.stamp, f.data[pc.partNo..]);
      FlatAppend(frags[..k], [cut]);
      FlatSingle(cut);
      FlatCons(head, frags[k + 1..]);
      FlatSplitAt(frags, k);
      TakeDrop(f.data, pc.partNo);
      Regroup(Flat(frags[..k]), cut.data, head.data, Flat(frags[k + 1..]));
    }
  }

  /** The offset of the start of the next fragment. */
  lemma OffsetStep(frags: seq<Fragment>, k: nat)
    requires k < |frags|
    ensures Offset(frags, PackCont(k + 1, 0)) == Offset(frags, PackCont(k, 0)) + |frags[k].data|
  {
  }

  /** Byte i of fragment k sits at offset Offset(k, 0) + i of the stream. */
  lemma ByteAt(frags: seq<Fragment>, k: nat, i: nat)
    requires k < |frags| && i < |frags[k].data|
    ensures Offset(frags, PackCont(k, 0)) + i < |Flat(frags)|
    ensures Flat(frags)[Offset(frags, PackCont(k, 0)) + i] == frags[k].data[i]
  {
    FlatSplitAt(frags, k);
    PrefixLenFlat(frags, k);
  }

  /** The whole stream ends at the end position. */
  lemma OffsetEnd(frags: seq<Fragment>)
    ensures Offset(frags, PackCont(|frags|, 0)) == |Flat(frags)|
  {
    PrefixLenFlat(frags, |frags|);
    assert frags[..|frags|] == frags;
  }

  /** A deque<Fragment> reached through a shared_ptr. */
  class FragBuf {
    var frags: seq<Fragment>

    constructor (frags: seq<Fragment>)
      ensures this.frags == frags
    {
      this.frags := frags;
    }
  }

  /**
   * What Fragment::ErasePrefixTo leaves, as written: the first fragNo
   * fragments are erased, then, when partNo != 0, the front is replaced by
   * the suffix of deq->at(pc.fragNo) — an index into the already shortened
   * deque. The first component is false when at() or substr() throws
   * std::out_of_range; the erase has happened by then.
   */
  function ErasedAsWritten(frags: seq<Fragment>, pc: PackCont): (bool, seq<Fragment>)
    requires pc.fragNo <= |frags|
  {
    var rest := frags[pc.fragNo..];
    if pc.partNo == 0 then (true, rest)
    else if pc.fragNo < |rest| && pc.partNo <= |rest[pc.fragNo].data| then
      (true, [Fragment(rest[pc.fragNo].stamp, rest[pc.fragNo].data[pc.partNo..])] + rest[1..])
    else (false, rest)
  }

  /** Fragment::ErasePrefixTo (erasing past the end is undefined behaviour, hence the requires). */
  method ErasePrefixTo(deq: FragBuf, pc: PackCont) returns (ok: bool)
    requires pc.fragNo <= |deq.frags|
    modifies deq
    ensures (ok, deq.frags) == ErasedAsWritten(old(deq.frags), pc)
  {
    deq.frags := deq.frags[pc.fragNo..];
    ok := true;
    if pc.partNo != 0 {
      if pc.fragNo >= |deq.frags| {
        ok := false;
        return;
      }
      var g := deq.frags[pc.fragNo];
      var suffix := SplitFragSuffix(g, pc.partNo);
      if suffix.None? {
        ok := false;
        return;
      }
      var f := Fragment(g.stamp, suffix.value);
      deq.frags := deq.frags[1..];
      deq.frags := [f] + deq.frags;
    }
  }

  /** When the cut is at a fragment start or inside the front fragment, ErasePrefixTo keeps exactly the suffix. */
  lemma ErasePrefixToAgrees(frags: seq<Fragment>, pc: PackCont)
    requires ValidPos(frags, pc)
    requires pc.fragNo == 0 || pc.partNo == 0
    ensures ErasedAsWritten(frags, pc) == (true, SuffixFrom(frags, pc))
  {
    var k := pc.fragNo;
    if k < |frags| && pc.partNo == 0 {
      assert frags[k].data[0..] == frags[k].data;
      assert frags[k..] == [frags[k]] + frags[k + 1..];
    }
  }

  /**
   * A cut inside a later fragment goes wrong: for ["ab", "cd", "efg"] cut
   * at (1, 1) ErasePrefixTo leaves "fg" + "efg" where the bytes from the
   * cut are "d" + "efg".
   */
  lemma ErasePrefixToWrongFragment(s: Stamp)
    ensures var frags := [Fragment(s, "ab"), Fragment(s, "cd"), Fragment(s, "efg")];
      var pc := PackCont(1, 1);
      && ErasedAsWritten(frags, pc) == (true, [Fragment(s, "fg"), Fragment(s, "efg")])
      && Flat(SuffixFrom(frags, pc)) == "defg"
      && Flat(ErasedAsWritten(frags, pc).1) != Flat(SuffixFrom(frags, pc))
  {
    var frags := [Fragment(s, "ab"), Fragment(s, "cd"), Fragment(s, "efg")];
    var pc := PackCont(1, 1);
    var rest := frags[1..];
    assert rest == [Fragment(s, "cd"), Fragment(s, "efg")];
    assert rest[1].data[1..] == "fg";
    assert rest[1..] == [Fragment(s, "efg")];
    assert |rest[1].data| == 3;
    assert [Fragment(rest[1].stamp, rest[1].data[1..])] + rest[1..] == [Fragment(s, "fg"), Fragment(s, "efg")];
    assert ErasedAsWritten(frags, pc) == (true, [Fragment(s, "fg"), Fragment(s, "efg")]);
    assert SuffixFrom(frags, pc) == [Fragment(s, "d"), Fragment(s, "efg")];
    assert Flat([Fragment(s, "efg")]) == "efg";
    assert Flat(SuffixFrom(frags, pc)) == "defg";
    assert Flat([Fragment(s, "fg"), Fragment(s, "efg")]) == "fgefg";
  }

  /** The evidently intended ErasePrefixTo: keep exactly the bytes from the position on. */
  method ErasePrefixToIntended(deq: FragBuf, pc: PackCont)
    requires ValidPos(deq.frags, pc)
    modifies deq
    ensures deq.frags == SuffixFrom(old(deq.frags), pc)
    ensures Offset(old(deq.frags), pc) <= |Flat(old(deq.frags))|
    ensures Flat(deq.frags) == Flat(old(deq.frags))[Offset(old(deq.frags), pc)..]
  {
    ghost var before := deq.frags;
    SuffixFromBytes(before, pc);
    deq.frags := deq.frags[pc.fragNo..];
    if pc.partNo != 0 {
      var g := deq.frags[0];
      var f := Fragment(g.stamp, g.data[pc.partNo..]);
      deq.frags := [f] + deq.frags[1..];
    } else if deq.frags != [] {
      assert deq.frags[0].data[0..] == deq.frags[0].data;
      assert deq.frags == [deq.frags[0]] + deq.frags[1..];
    }
  }

  /**
   * Fragment::CopySuffixFrom: append the suffix of fragment fragNo from
   * partNo, then every later fragment; nothing at fragNo == |deq|.
   * at() and substr() throw std::out_of_range (ok == false) before
   * anything is appended.
   */
  method CopySuffixFrom(deq: seq<Fragment>, pc: PackCont, out: FragBuf) returns (ok: bool)
    modifies out
    ensures ok <==> ValidPos(deq, pc) || (pc.fragNo == |deq| && pc.partNo != 0)
    ensures ok && pc.fragNo < |deq| ==> out.frags == old(out.frags) + SuffixFrom(deq, pc)
    ensures !(ok && pc.fragNo < |deq|) ==> out.frags == old(out.frags)
  {
    if |deq| == pc.fragNo {
      return true;
    }
    if pc.fragNo > |deq| {
      return false;
    }
    var suffix := SplitFragSuffix(deq[pc.fragNo], pc.partNo);
    if suffix.None? {
      return false;
    }
    out.frags := out.frags + [Fragment(deq[pc.fragNo].stamp, suffix.value)];
    var i := pc.fragNo + 1;
    while i < |deq|
      invariant pc.fragNo + 1 <= i <= |deq|
      invariant out.frags == old(out.frags) + [Fragment(deq[pc.fragNo].stamp, suffix.value)] + deq[pc.fragNo + 1..i]
    {
      out.frags := out.frags + [deq[i]];
      i := i + 1;
    }
    assert deq[pc.fragNo + 1..i] == deq[pc.fragNo + 1..];
    assert SuffixFrom(deq, pc) == [Fragment(deq[pc.fragNo].stamp, suffix.value)] + deq[pc.fragNo + 1..];
    ok := true;
  }
}
