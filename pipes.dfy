/**
 * The packet pipes: the deferred PostProcess steps, PipePacket, which
 * turns a connection's buffered and freshly read fragments into records,
 * and PipeSet, which keeps one pipe per connection and runs every
 * deferred step only after all reads of a round have been packetized.
 *
 * A deque reached through a shared_ptr is an object (FragBuf,
 * PacketQueue); a step holds the very objects it will write, so steps
 * queued by a copy of a pipe write the original pipe's buffers.
 */
module Pipes {
  import opened Wrappers
  import opened Fragments
  import opened Cursor
  import opened PackNlDelEx
  import opened Tokens
  import opened Connections

  /** A deque<string> of finished records reached through a shared_ptr. */
  class PacketQueue {
    var items: seq<string>

    constructor ()
      ensures items == []
    {
      items := [];
    }
  }

  /**
   * How a deferred step ended: normally, with std::out_of_range thrown by
   * at() or substr(), or in undefined behaviour (erasing more fragments
   * than the deque holds).
   */
  datatype Outcome = Done | OutOfRange | Undefined

  /** The PostProcess subclasses, each with what it captured. */
  datatype Step =
    | CullPrefixAndMerge(inBuf: FragBuf, extra: seq<Fragment>, cont: PackContR)
    | PackWrite(dest: PacketQueue, src: seq<string>)
    | FragmentWrite(deq: FragBuf, frags: seq<Fragment>)

  /** What Fragment::CopySuffixFrom appends, or None when it throws. */
  function SuffixCopy(deq: seq<Fragment>, pc: PackCont): Option<seq<Fragment>>
  {
    if pc.fragNo == |deq| then Some([])
    else if pc.fragNo < |deq| && pc.partNo <= |deq[pc.fragNo].data| then Some(SuffixFrom(deq, pc))
    else None
  }

  /**
   * PostProcessCullPrefixAndMerge::Process on the contents of in: with
   * the final cursor in the buffered fragments, erase up to it and append
   * all of extra; with it in the fresh fragments, replace in by the suffix
   * of extra from the cursor.
   */
  function CullResult(inFrags: seq<Fragment>, extra: seq<Fragment>, cont: PackContR): (Outcome, seq<Fragment>)
  {
    if cont.inIn then
      if cont.fragNo > |inFrags| then (Undefined, inFrags)
      else
        var erased := ErasedAsWritten(inFrags, PackCont(cont.fragNo, cont.partNo));
        if !erased.0 then (OutOfRange, erased.1)
        else (Done, erased.1 + SuffixCopy(extra, PackCont(0, 0)).value)
    else
      match SuffixCopy(extra, PackCont(cont.fragNo, cont.partNo))
      case None => (OutOfRange, [])
      case Some(s) => (Done, s)
  }

  /** CopySuffixFrom appends what SuffixCopy says, and throws exactly when SuffixCopy is None. */
  lemma CopySuffixFromIsSuffixCopy(deq: seq<Fragment>, pc: PackCont)
    ensures SuffixCopy(deq, pc).Some? <==> ValidPos(deq, pc) || (pc.fragNo == |deq| && pc.partNo != 0)
    ensures SuffixCopy(deq, pc).Some? ==> SuffixCopy(deq, pc).value == if pc.fragNo < |deq| then SuffixFrom(deq, pc) else []
  {
  }

  /** PostProcessCullPrefixAndMerge::Process. */
  method CullPrefixAndMergeProcess(inBuf: FragBuf, extra: seq<Fragment>, cont: PackContR) returns (o: Outcome)
    modifies inBuf
    ensures (o, inBuf.frags) == CullResult(old(inBuf.frags), extra, cont)
  {
    CopySuffixFromIsSuffixCopy(extra, PackCont(0, 0));
    CopySuffixFromIsSuffixCopy(extra, PackCont(cont.fragNo, cont.partNo));
    if cont.inIn {
      if cont.fragNo > |inBuf.frags| {
        return Undefined;
      }
      var ok := ErasePrefixTo(inBuf, PackCont(cont.fragNo, cont.partNo));
      if !ok {
        return OutOfRange;
      }
      ghost var erased := inBuf.frags;
      ok := CopySuffixFrom(extra, PackCont(0, 0), inBuf);
      assert inBuf.frags == erased + SuffixCopy(extra, PackCont(0, 0)).value;
      return Done;
    } else {
      inBuf.frags := [];
      var ok := CopySuffixFrom(extra, PackCont(cont.fragNo, cont.partNo), inBuf);
      if ok {
        assert inBuf.frags == SuffixCopy(extra, PackCont(cont.fragNo, cont.partNo)).value;
        return Done;
      }
      return OutOfRange;
    }
  }

  /** PostProcessPackWrite::Process: push every record of src onto dest, in order. */
  method PackWriteProcess(dest: PacketQueue, src: seq<string>)
    modifies dest
    ensures dest.items == old(dest.items) + src
  {
    var i := 0;
    while i < |src|
      invariant 0 <= i <= |src|
      invariant dest.items == old(dest.items) + src[..i]
    {
      dest.items := dest.items + [src[i]];
      i := i + 1;
    }
    assert src[..i] == src;
  }

  /** PostProcessFragmentWrite::Process: push every fragment read onto deq, in order. */
  method FragmentWriteProcess(deq: FragBuf, frags: seq<Fragment>)
    modifies deq
    ensures deq.frags == old(deq.frags) + frags
  {
    var i := 0;
    while i < |frags|
      invariant 0 <= i <= |frags|
      invariant deq.frags == old(deq.frags) + frags[..i]
    {
      deq.frags := deq.frags + [frags[i]];
      i := i + 1;
    }
    assert frags[..i] == frags;
  }

  /** The buffer contents the steps act on, by object. */
  datatype Store = Store(bufs: map<FragBuf, seq<Fragment>>, queues: map<PacketQueue, seq<string>>)

  /** The store holds the buffer the step writes. */
  predicate Covers(st: Store, step: Step)
  {
    match step
    case CullPrefixAndMerge(b, _, _) => b in st.bufs
    case PackWrite(q, _) => q in st.queues
    case FragmentWrite(b, _) => b in st.bufs
  }

  /** One step's effect on the store. */
  function Apply(st: Store, step: Step): (r: (Outcome, Store))
    requires Covers(st, step)
    ensures r.1.bufs.Keys == st.bufs.Keys && r.1.queues.Keys == st.queues.Keys
  {
    match step
    case CullPrefixAndMerge(b, extra, cont) =>
      var c := CullResult(st.bufs[b], extra, cont);
      (c.0, st.(bufs := st.bufs[b := c.1]))
    case PackWrite(q, src) => (Done, st.(queues := st.queues[q := st.queues[q] + src]))
    case FragmentWrite(b, frags) => (Done, st.(bufs := st.bufs[b := st.bufs[b] + frags]))
  }

  /** The store holds every buffer the steps write. */
  predicate CoversAll(st: Store, steps: seq<Step>)
  {
    forall i :: 0 <= i < |steps| ==> Covers(st, steps[i])
  }

  /** Running the steps in queue order; the first one that does not end normally ends the run. */
  function RunSteps(st: Store, steps: seq<Step>): (r: (Outcome, Store))
    requires CoversAll(st, steps)
    ensures r.1.bufs.Keys == st.bufs.Keys && r.1.queues.Keys == st.queues.Keys
    decreases |steps|
  {
    if steps == [] then (Done, st)
    else
      var a := Apply(st, steps[0]);
      if a.0 != Done then a
      else
        assert CoversAll(a.1, steps[1..]) by {
          forall i | 0 <= i < |steps[1..]| ensures Covers(a.1, steps[1..][i]) {
            assert Covers(st, steps[i + 1]);
          }
        }
        RunSteps(a.1, steps[1..])
  }

  /** Running a non-empty queue: the first step, then the rest unless the first one failed. */
  lemma RunStepsFirst(st: Store, steps: seq<Step>)
    requires steps != [] && CoversAll(st, steps)
    ensures Covers(st, steps[0])
    ensures Apply(st, steps[0]).0 != Done ==> RunSteps(st, steps) == Apply(st, steps[0])
    ensures Apply(st, steps[0]).0 == Done ==>
      CoversAll(Apply(st, steps[0]).1, steps[1..]) && RunSteps(st, steps) == RunSteps(Apply(st, steps[0]).1, steps[1..])
  {
    assert Covers(st, steps[0]);
    var a := Apply(st, steps[0]);
    forall i | 0 <= i < |steps[1..]| ensures Covers(a.1, steps[1..][i]) {
      assert Covers(st, steps[i + 1]);
    }
  }

  /** The objects hold what the store says. */
  ghost predicate Mirrors(st: Store)
    reads st.bufs.Keys, st.queues.Keys
  {
    && (forall b :: b in st.bufs ==> b.frags == st.bufs[b])
    && (forall q :: q in st.queues ==> q.items == st.queues[q])
  }

  /** PostProcess::Process dispatched on the step's kind. */
  method Process(step: Step, ghost st: Store) returns (o: Outcome)
    requires Covers(st, step) && Mirrors(st)
    modifies st.bufs.Keys, st.queues.Keys
    ensures Mirrors(Apply(st, step).1) && o == Apply(st, step).0
  {
    match step
    case CullPrefixAndMerge(b, extra, cont) =>
      o := CullPrefixAndMergeProcess(b, extra, cont);
    case PackWrite(q, src) =>
      PackWriteProcess(q, src);
      o := Done;
    case FragmentWrite(b, frags) =>
      FragmentWriteProcess(b, frags);
      o := Done;
  }

  /** The second loop of PipeSet::RemakeForRead: process every queued step, in order. */
  method ProcessAll(steps: seq<Step>, ghost st: Store) returns (o: Outcome)
    requires CoversAll(st, steps) && Mirrors(st)
    modifies st.bufs.Keys, st.queues.Keys
    ensures Mirrors(RunSteps(st, steps).1) && o == RunSteps(st, steps).0
  {
    ghost var cur := st;
    var i := 0;
    while i < |steps|
      invariant 0 <= i <= |steps|
      invariant cur.bufs.Keys == st.bufs.Keys && cur.queues.Keys == st.queues.Keys
      invariant CoversAll(cur, steps[i..]) && Mirrors(cur)
      invariant RunSteps(st, steps) == RunSteps(cur, steps[i..])
    {
      assert steps[i..][0] == steps[i] && steps[i..][1..] == steps[i + 1..];
      RunStepsFirst(cur, steps[i..]);
      o := Process(steps[i], cur);
      if o != Done {
        return;
      }
      cur := Apply(cur, steps[i]).1;
      i := i + 1;
    }
    o := Done;
  }

  /** The records already taken in front of what a packetizing pass still takes. */
  function Prepend(recs: seq<string>, c: Checked<Extracted>): Checked<Extracted>
  {
    match c
    case Aborted => Aborted
    case Ok(e) => Ok(Extracted(recs + e.records, e.final))
  }

  /** Nothing taken yet. */
  lemma PrependNothing(c: Checked<Extracted>)
    ensures Prepend([], c) == c
  {
    if c.Ok? {
      assert [] + c.value.records == c.value.records;
    }
  }

  /** Taking one more record moves it from the pass to the taken ones. */
  lemma PrependStep(recs: seq<string>, all: seq<Fragment>, g: nat, p: nat, k: int, t: Took)
    requires ValidPos(all, PackCont(g, p))
    requires NextPacketAsWritten(all, g, p, k) == Ok(Some(t))
    ensures Prepend(recs, PacketizeAsWritten(all, g, p, k))
      == Prepend(recs + [t.record], PacketizeAsWritten(all, t.at.fragNo, t.at.partNo, t.canary))
  {
    match PacketizeAsWritten(all, t.at.fragNo, t.at.partNo, t.canary)
    case Aborted =>
    case Ok(e) =>
      assert recs + ([t.record] + e.records) == (recs + [t.record]) + e.records;
  }

  /**
   * The steps PipePacket::RemakeForRead queues for a pipe whose in
   * buffer holds inFrags when extra is read: packetize inFrags + extra
   * from the start, then cull in at the final cursor and push the
   * records onto inPack. Aborted is the canary assert.
   */
  function RemakeSteps(inBuf: FragBuf, inPack: PacketQueue, inFrags: seq<Fragment>, extra: seq<Fragment>): Checked<seq<Step>>
  {
    match PacketizeAsWritten(inFrags + extra, 0, 0, 0)
    case Aborted => Aborted
    case Ok(e) => Ok(StepsFor(inBuf, inPack, inFrags, extra, e))
  }

  /** The cull at the final cursor of a pass, then the write of its records. */
  function StepsFor(inBuf: FragBuf, inPack: PacketQueue, inFrags: seq<Fragment>, extra: seq<Fragment>, e: Extracted): seq<Step>
  {
    [CullPrefixAndMerge(inBuf, extra, AtGlobal(inFrags, e.final.fragNo, e.final.partNo)), PackWrite(inPack, e.records)]
  }

  /** The steps RemakeForRead would queue with the corrected GetFromTo. */
  function RemakeStepsIntended(inBuf: FragBuf, inPack: PacketQueue, inFrags: seq<Fragment>, extra: seq<Fragment>): Checked<seq<Step>>
  {
    match Packetize(inFrags + extra, 0, 0, 0)
    case Aborted => Aborted
    case Ok(e) => Ok(StepsFor(inBuf, inPack, inFrags, extra, e))
  }

  /** NetStuff::PipePacket: the buffered input, the output and the finished records, each behind a shared_ptr. */
  class PipePacket {
    const inBuf: FragBuf
    const outBuf: FragBuf
    const inPack: PacketQueue

    /** Nothing buffered and no finished records. */
    ghost predicate Empty()
      reads inBuf, inPack
    {
      inBuf.frags == [] && inPack.items == []
    }

    /** A pipe with three fresh, empty buffers. */
    constructor ()
      ensures fresh(inBuf) && fresh(outBuf) && fresh(inPack) && inBuf != outBuf
      ensures inBuf.frags == [] && outBuf.frags == [] && inPack.items == []
    {
      inBuf := new FragBuf([]);
      outBuf := new FragBuf([]);
      inPack := new PacketQueue();
    }

    /** The implicit copy constructor: the copy shares all three buffers. */
    constructor Copy(other: PipePacket)
      ensures inBuf == other.inBuf && outBuf == other.outBuf && inPack == other.inPack
    {
      inBuf := other.inBuf;
      outBuf := other.outBuf;
      inPack := other.inPack;
    }

    /**
     * PipePacket::RemakeForRead: take every complete record from the
     * buffered fragments followed by the ones just read, then queue the
     * cull of in and the write of the records, both aimed at the buffers
     * the returned copy shares with this pipe. Nothing is written now.
     */
    method RemakeForRead(pp: seq<Step>, sr: ReadEntry) returns (r: Checked<PipePacket>, pp': seq<Step>)
      ensures r.Aborted? <==> RemakeSteps(inBuf, inPack, inBuf.frags, sr.inFrags).Aborted?
      ensures r.Ok? ==>
        && fresh(r.value) && r.value.inBuf == inBuf && r.value.outBuf == outBuf && r.value.inPack == inPack
        && pp' == pp + RemakeSteps(inBuf, inPack, inBuf.frags, sr.inFrags).value
    {
      ghost var all := inBuf.frags + sr.inFrags;
      var cont := new PackContIt(inBuf.frags, sr.inFrags);
      var inP: seq<string> := [];
      var more := true;
      var aborted := false;
      PrependNothing(PacketizeAsWritten(all, 0, 0, 0));
      while more
        invariant cont.fst == inBuf.frags && cont.snd == sr.inFrags && cont.All() == all
        invariant !aborted ==> cont.Valid() && cont.canary <= CanaryLimit + 1
        invariant aborted ==> !more
        invariant more ==> PacketizeAsWritten(all, 0, 0, 0) == Prepend(inP, PacketizeAsWritten(all, cont.G(), cont.cont.partNo, cont.canary))
        invariant !more && aborted ==> PacketizeAsWritten(all, 0, 0, 0) == Aborted
        invariant !more && !aborted ==> PacketizeAsWritten(all, 0, 0, 0) == Ok(Extracted(inP, PackCont(cont.G(), cont.cont.partNo)))
        decreases more, CanaryLimit + 1 - cont.canary
      {
        ghost var g, p, k := cont.G(), cont.cont.partNo, cont.canary;
        var got, data := GetPacket(cont, "");
        if got.Aborted? {
          aborted, more := true, false;
        } else if !got.value {
          assert [] + inP == inP && inP + [] == inP;
          more := false;
        } else {
          ghost var t := NextPacketAsWritten(all, g, p, k).value.value;
          PrependStep(inP, all, g, p, k, t);
          assert data == "" + t.record == t.record;
          inP := inP + [data];
        }
      }
      if aborted {
        return Aborted, pp;
      }
      GlobalRoundTrip(cont.fst, cont.snd, cont.cont);
      var ret := new PipePacket.Copy(this);
      pp' := pp + [CullPrefixAndMerge(ret.inBuf, sr.inFrags, cont.cont), PackWrite(ret.inPack, inP)];
      r := Ok(ret);
    }
  }

  /** No two pipes share an in buffer or a record queue. */
  predicate Disjoint(pipes: map<ConToken, PipePacket>)
  {
    forall a, b :: a in pipes && b in pipes && a != b ==> pipes[a].inBuf != pipes[b].inBuf && pipes[a].inPack != pipes[b].inPack
  }

  /** Every pipe's in and inPack buffers are in the store. */
  ghost predicate Holds(st: Store, pipes: map<ConToken, PipePacket>)
  {
    forall t :: t in pipes ==> pipes[t].inBuf in st.bufs && pipes[t].inPack in st.queues
  }

  /**
   * The steps the first loop of PipeSet::RemakeForRead queues for the
   * reads, with the buffers holding what st says: each read of a token
   * with a pipe adds that pipe's two steps, in read order; a read of an
   * unknown token adds nothing. Aborted is a canary assert in any pipe.
   */
  ghost function Collect(pipes: map<ConToken, PipePacket>, st: Store, srs: seq<ReadEntry>): (r: Checked<seq<Step>>)
    requires Holds(st, pipes)
    ensures r.Ok? ==> CoversAll(st, r.value)
    decreases |srs|
  {
    if srs == [] then Ok([])
    else
      var n := |srs| - 1;
      match Collect(pipes, st, srs[..n])
      case Aborted => Aborted
      case Ok(pre) =>
        var sr := srs[n];
        if sr.tok !in pipes then Ok(pre)
        else
          var p := pipes[sr.tok];
          match RemakeSteps(p.inBuf, p.inPack, st.bufs[p.inBuf], sr.inFrags)
          case Aborted => Aborted
          case Ok(s) =>
            assert CoversAll(st, pre + s) by {
              forall i | 0 <= i < |pre + s| ensures Covers(st, (pre + s)[i]) {
                if i >= |pre| {
                  assert (pre + s)[i] == s[i - |pre|];
                }
              }
            }
            Ok(pre + s)
  }

  /** The tokens of a list, as a set. */
  function TokenSet(toks: seq<ConToken>): set<ConToken>
  {
    set i | 0 <= i < |toks| :: toks[i]
  }

  /** One more token of the list adds it to the set. */
  lemma TokenSetSnoc(toks: seq<ConToken>, i: nat)
    requires i < |toks|
    ensures TokenSet(toks[..i + 1]) == TokenSet(toks[..i]) + {toks[i]}
  {
    assert toks[..i + 1] == toks[..i] + [toks[i]];
  }

  /** NetStuff::PipeSet: one packet pipe per connection token. */
  class PipeSet {
    var pipes: map<ConToken, PipePacket>

    /** No two pipes share a buffer. */
    ghost predicate Valid()
      reads this
    {
      Disjoint(pipes)
    }

    constructor ()
      ensures pipes == map[] && Valid()
    {
      pipes := map[];
    }

    /** The pipes' in buffers. */
    function Bufs(): set<FragBuf>
      reads this
    {
      set t | t in pipes :: pipes[t].inBuf
    }

    /** The pipes' record queues. */
    function Queues(): set<PacketQueue>
      reads this
    {
      set t | t in pipes :: pipes[t].inPack
    }

    /** What the pipes' buffers hold now. */
    ghost function Snapshot(): (st: Store)
      reads this, Bufs(), Queues()
      ensures Holds(st, pipes) && Mirrors(st)
    {
      Store(map b | b in Bufs() :: b.frags, map q | q in Queues() :: q.items)
    }

    /**
     * PipeSet::MergePacketed: a fresh, empty pipe for every token of toks
     * that has none yet; existing pipes stay as they are.
     */
    method MergePacketed(toks: seq<ConToken>)
      requires Valid()
      modifies this
      ensures Valid()
      ensures pipes.Keys == old(pipes.Keys) + TokenSet(toks)
      ensures forall t :: t in old(pipes) ==> pipes[t] == old(pipes)[t]
      ensures forall t :: t in pipes && t !in old(pipes) ==>
        fresh(pipes[t]) && fresh(pipes[t].inBuf) && fresh(pipes[t].inPack) && pipes[t].Empty()
    {
      var i := 0;
      while i < |toks|
        invariant i <= |toks|
        invariant Valid()
        invariant pipes.Keys == old(pipes.Keys) + TokenSet(toks[..i])
        invariant forall t :: t in old(pipes) ==> pipes[t] == old(pipes)[t]
        invariant forall t :: t in pipes && t !in old(pipes) ==>
          fresh(pipes[t]) && fresh(pipes[t].inBuf) && fresh(pipes[t].inPack) && pipes[t].Empty()
      {
        TokenSetSnoc(toks, i);
        if toks[i] !in pipes {
          var p := AddPipe(toks[i]);
        }
        i := i + 1;
      }
      assert toks[..i] == toks;
    }

    /** pipes[t] = PipeMaker::MakePacket() for a token with no pipe. */
    method AddPipe(t: ConToken) returns (p: PipePacket)
      requires Valid() && t !in pipes
      modifies this
      ensures Valid() && pipes == old(pipes)[t := p]
      ensures fresh(p) && fresh(p.inBuf) && fresh(p.inPack) && p.Empty()
    {
      p := new PipePacket();
      pipes := pipes[t := p];
    }

    /**
     * PipeSet::RemakeForRead: packetize every read whose token has a
     * pipe, queueing the steps, and only then process the queued steps
     * in order. Every step is computed from the buffers as they were
     * before any step ran; a canary assert stops everything before any
     * buffer is written.
     */
    method RemakeForRead(sockReads: seq<ReadEntry>) returns (o: Checked<Outcome>)
      requires Valid()
      modifies Bufs(), Queues()
      ensures Collect(pipes, old(Snapshot()), sockReads).Aborted? ==> o == Aborted && Mirrors(old(Snapshot()))
      ensures Collect(pipes, old(Snapshot()), sockReads).Ok? ==>
        var r := RunSteps(old(Snapshot()), Collect(pipes, old(Snapshot()), sockReads).value);
        o == Ok(r.0) && Mirrors(r.1)
    {
      ghost var st := Snapshot();
      var steps := QueueSteps(sockReads, st);
      if steps.Aborted? {
        return Aborted;
      }
      var out := ProcessAll(steps.value, st);
      o := Ok(out);
    }

    /**
     * The first loop of PipeSet::RemakeForRead: the steps queued for the
     * reads, skipping reads of tokens without a pipe; nothing is written.
     */
    method QueueSteps(sockReads: seq<ReadEntry>, ghost st: Store) returns (r: Checked<seq<Step>>)
      requires Holds(st, pipes) && Mirrors(st)
      ensures r == Collect(pipes, st, sockReads)
    {
      var pc: seq<Step> := [];
      var i := 0;
      while i < |sockReads|
        invariant 0 <= i <= |sockReads|
        invariant Collect(pipes, st, sockReads[..i]) == Ok(pc)
      {
        var sr := sockReads[i];
        CollectStep(pipes, st, sockReads, i, pc);
        if sr.tok !in pipes {
          i := i + 1;
          continue;
        }
        var p := pipes[sr.tok];
        assert st.bufs[p.inBuf] == p.inBuf.frags;
        var got, pc' := p.RemakeForRead(pc, sr);
        if got.Aborted? {
          CollectAbortedExtends(pipes, st, sockReads, i + 1);
          return Aborted;
        }
        pc := pc';
        i := i + 1;
      }
      assert sockReads[..i] == sockReads;
      r := Ok(pc);
    }
  }

  /** The steps for one more read, given those for the reads before it. */
  lemma CollectStep(pipes: map<ConToken, PipePacket>, st: Store, srs: seq<ReadEntry>, i: nat, pc: seq<Step>)
    requires Holds(st, pipes) && i < |srs| && Collect(pipes, st, srs[..i]) == Ok(pc)
    ensures srs[i].tok !in pipes ==> Collect(pipes, st, srs[..i + 1]) == Ok(pc)
    ensures srs[i].tok in pipes ==>
      var p := pipes[srs[i].tok];
      var s := RemakeSteps(p.inBuf, p.inPack, st.bufs[p.inBuf], srs[i].inFrags);
      && (s.Aborted? ==> Collect(pipes, st, srs[..i + 1]) == Aborted)
      && (s.Ok? ==> Collect(pipes, st, srs[..i + 1]) == Ok(pc + s.value))
  {
    assert srs[..i + 1][..i] == srs[..i];
  }

  /** Once a prefix of the reads aborts, all of them do. */
  lemma {:induction false} CollectAbortedExtends(pipes: map<ConToken, PipePacket>, st: Store, srs: seq<ReadEntry>, n: nat)
    requires Holds(st, pipes) && n <= |srs|
    requires Collect(pipes, st, srs[..n]) == Aborted
    ensures Collect(pipes, st, srs) == Aborted
    decreases |srs| - n
  {
    if n < |srs| {
      assert srs[..n + 1][..n] == srs[..n];
      CollectAbortedExtends(pipes, st, srs, n + 1);
    } else {
      assert srs[..n] == srs;
    }
  }
}
