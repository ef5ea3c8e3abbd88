/**
 * What one round of a packet pipe achieves. The pipe keeps in its in
 * buffer only bytes with no '\n' (an incomplete record); a round
 * packetizes those bytes followed by the freshly read fragments, queues
 * one entry per complete record, and culls the buffer down to the bytes
 * after the last '\n', which again hold no '\n'.
 *
 * With the corrected GetFromTo nothing is lost or duplicated. As
 * written, an entry repeats the bytes of its fragment before the record
 * whenever two records end in one fragment; where no fragment read holds
 * two '\n' the round as written is the corrected round. Over a whole
 * pipe set, a round that reads each connection at most once keeps every
 * pipe's buffer free of '\n'.
 */
module PipeRounds {
  import opened Wrappers
  import opened Fragments
  import opened Cursor
  import opened PackNlDelEx
  import opened Pipes
  import opened Tokens
  import opened Connections

  /** The bytes of a fragment sequence contain no '\n'. */
  ghost predicate NoRecord(frags: seq<Fragment>)
  {
    NoNewline(Flat(frags), 0, |Flat(frags)|)
  }

  /** Prefix lengths inside the first part of a concatenation are those of the first part. */
  lemma {:induction false} PrefixLenLeft(a: seq<Fragment>, b: seq<Fragment>, k: nat)
    requires k <= |a|
    ensures PrefixLen(a + b, k) == PrefixLen(a, k)
  {
    if k > 0 {
      PrefixLenLeft(a, b, k - 1);
      assert (a + b)[k - 1] == a[k - 1];
    }
  }

  /** Prefix lengths reaching into the second part of a concatenation. */
  lemma {:induction false} PrefixLenRight(a: seq<Fragment>, b: seq<Fragment>, j: nat)
    requires j <= |b|
    ensures PrefixLen(a + b, |a| + j) == |Flat(a)| + PrefixLen(b, j)
  {
    if j == 0 {
      PrefixLenLeft(a, b, |a|);
      PrefixLenFlat(a, |a|);
      assert a[..|a|] == a;
    } else {
      PrefixLenRight(a, b, j - 1);
      assert (a + b)[|a| + j - 1] == b[j - 1];
    }
  }

  /** Records glued together end in '\n' unless there are none. */
  lemma {:induction false} ConcatEndsInNewline(records: seq<string>)
    requires forall i :: 0 <= i < |records| ==> IsRecord(records[i])
    ensures records == [] <==> Concat(records) == ""
    ensures records != [] ==> Concat(records)[|Concat(records)| - 1] == '\n'
  {
    if records != [] {
      var rest := records[1..];
      assert forall i :: 0 <= i < |rest| ==> IsRecord(rest[i]) by {
        forall i | 0 <= i < |rest| ensures IsRecord(rest[i]) {
          assert rest[i] == records[i + 1];
        }
      }
      ConcatEndsInNewline(rest);
      assert IsRecord(records[0]);
    }
  }

  /** Copying extra from its start appends all of its bytes. */
  lemma SuffixCopyWhole(extra: seq<Fragment>)
    ensures SuffixCopy(extra, PackCont(0, 0)).Some?
    ensures Flat(SuffixCopy(extra, PackCont(0, 0)).value) == Flat(extra)
  {
    if extra != [] {
      SuffixFromBytes(extra, PackCont(0, 0));
    }
  }

  /** A position in the buffered part of in + extra, seen from in alone. */
  lemma BufferedPos(inFrags: seq<Fragment>, extra: seq<Fragment>, final: PackCont)
    requires ValidPos(inFrags + extra, final) && final.fragNo < |inFrags|
    ensures ValidPos(inFrags, final)
    ensures Offset(inFrags + extra, final) == Offset(inFrags, final) <= |Flat(inFrags)|
  {
    assert (inFrags + extra)[final.fragNo] == inFrags[final.fragNo];
    PrefixLenLeft(inFrags, extra, final.fragNo);
    SuffixFromBytes(inFrags, final);
  }

  /**
   * Since the buffered bytes hold no '\n', a corrected pass that stops
   * inside them took no record and stopped at byte 0.
   */
  lemma BufferedTakesNothingIntended(inFrags: seq<Fragment>, extra: seq<Fragment>, e: Extracted)
    requires NoRecord(inFrags)
    requires Packetize(inFrags + extra, 0, 0, 0) == Ok(e) && e.final.fragNo < |inFrags|
    ensures e.records == [] && e.final.partNo == 0 && Offset(inFrags, e.final) == 0
  {
    var all := inFrags + extra;
    PacketizeMeaning(all, 0, 0, 0);
    BufferedPos(inFrags, extra, e.final);
    ConcatEndsInNewline(e.records);
    FlatAppend(inFrags, extra);
    if e.records != [] {
      assert false;
    }
  }

  /** Culling at a position at byte 0 of the buffered fragments keeps every byte. */
  lemma CullAtStart(inFrags: seq<Fragment>, extra: seq<Fragment>, pc: PackCont)
    requires pc.fragNo < |inFrags| && ValidPos(inFrags, pc) && Offset(inFrags, pc) == 0
    ensures var c := CullResult(inFrags, extra, AtGlobal(inFrags, pc.fragNo, pc.partNo));
      c.0 == Done && Flat(c.1) == Flat(inFrags) + Flat(extra)
  {
    ErasePrefixToAgrees(inFrags, pc);
    SuffixFromBytes(inFrags, pc);
    SuffixCopyWhole(extra);
    var kept := SuffixFrom(inFrags, pc);
    var copied := SuffixCopy(extra, PackCont(0, 0)).value;
    assert CullResult(inFrags, extra, AtGlobal(inFrags, pc.fragNo, pc.partNo)) == (Done, kept + copied);
    FlatAppend(kept, copied);
  }

  /** Dropping a whole first part and then some of the second. */
  lemma DropPast(a: string, b: string, x: nat)
    requires x <= |b|
    ensures (a + b)[|a| + x..] == b[x..]
  {
  }

  /** A position in the fresh part of in + extra, seen from extra alone. */
  lemma FreshPos(inFrags: seq<Fragment>, extra: seq<Fragment>, final: PackCont)
    requires ValidPos(inFrags + extra, final) && final.fragNo >= |inFrags|
    ensures ValidPos(extra, PackCont(final.fragNo - |inFrags|, final.partNo))
    ensures Offset(inFrags + extra, final) == |Flat(inFrags)| + Offset(extra, PackCont(final.fragNo - |inFrags|, final.partNo))
  {
    var j := final.fragNo - |inFrags|;
    if j < |extra| {
      assert (inFrags + extra)[final.fragNo] == extra[j];
    }
    PrefixLenRight(inFrags, extra, j);
  }

  /**
   * A cursor in the fresh fragments: the cull keeps exactly the bytes of
   * the stream from the cursor on.
   */
  lemma CullInFresh(inFrags: seq<Fragment>, extra: seq<Fragment>, final: PackCont)
    requires ValidPos(inFrags + extra, final) && final.fragNo >= |inFrags|
    ensures var c := CullResult(inFrags, extra, AtGlobal(inFrags, final.fragNo, final.partNo));
      && c.0 == Done
      && Offset(inFrags + extra, final) <= |Flat(inFrags + extra)|
      && Flat(c.1) == Flat(inFrags + extra)[Offset(inFrags + extra, final)..]
  {
    var pc := PackCont(final.fragNo - |inFrags|, final.partNo);
    FreshPos(inFrags, extra, final);
    var kept := SuffixFrom(extra, pc);
    assert CullResult(inFrags, extra, AtGlobal(inFrags, final.fragNo, final.partNo)) == (Done, kept);
    SuffixFromBytes(extra, pc);
    FlatAppend(inFrags, extra);
    DropPast(Flat(inFrags), Flat(extra), Offset(extra, pc));
  }

  /**
   * A corrected round on the bytes: the cull ends normally, the records are
   * complete records, records and kept bytes together are the buffered
   * bytes followed by the read ones, and the kept bytes hold no '\n'.
   */
  lemma RoundBytesIntended(inFrags: seq<Fragment>, extra: seq<Fragment>, e: Extracted)
    requires NoRecord(inFrags) && Packetize(inFrags + extra, 0, 0, 0) == Ok(e)
    ensures var c := CullResult(inFrags, extra, AtGlobal(inFrags, e.final.fragNo, e.final.partNo));
      && c.0 == Done
      && (forall i :: 0 <= i < |e.records| ==> IsRecord(e.records[i]))
      && Concat(e.records) + Flat(c.1) == Flat(inFrags) + Flat(extra)
      && NoRecord(c.1)
  {
    var all := inFrags + extra;
    PacketizeMeaning(all, 0, 0, 0);
    FlatAppend(inFrags, extra);
    var c := CullResult(inFrags, extra, AtGlobal(inFrags, e.final.fragNo, e.final.partNo));
    var end := Offset(all, e.final);
    if e.final.fragNo < |inFrags| {
      BufferedTakesNothingIntended(inFrags, extra, e);
      BufferedPos(inFrags, extra, e.final);
      CullAtStart(inFrags, extra, e.final);
    } else {
      CullInFresh(inFrags, extra, e.final);
    }
    assert Flat(c.1) == Flat(all)[end..];
    TakeDrop(Flat(all), end);
    NoNewlineTail(Flat(all), end);
  }

  /** A stretch with no '\n' up to the end, cut out. */
  lemma NoNewlineTail(s: string, a: nat)
    requires a <= |s| && NoNewline(s, a, |s|)
    ensures NoNewline(s[a..], 0, |s[a..]|)
  {
    forall i | 0 <= i < |s[a..]|
      ensures s[a..][i] != '\n'
    {
      assert s[a..][i] == s[a + i];
    }
  }

  /**
   * One pipe's share of a corrected round, on the contents of its buffers: the
   * queued steps end normally; the records join the queue after what it
   * held, each is one complete record, and together with what stays in
   * the in buffer they are exactly the bytes that were buffered followed
   * by the bytes just read; the in buffer again holds no '\n'; no other
   * buffer changes.
   */
  lemma PipeRoundIntended(st: Store, b: FragBuf, q: PacketQueue, extra: seq<Fragment>)
    requires b in st.bufs && q in st.queues && NoRecord(st.bufs[b])
    requires RemakeStepsIntended(b, q, st.bufs[b], extra).Ok?
    ensures var steps := RemakeStepsIntended(b, q, st.bufs[b], extra).value;
      && CoversAll(st, steps)
      && var r := RunSteps(st, steps);
      && r.0 == Done
      && (forall b' :: b' in st.bufs && b' != b ==> r.1.bufs[b'] == st.bufs[b'])
      && (forall q' :: q' in st.queues && q' != q ==> r.1.queues[q'] == st.queues[q'])
      && |st.queues[q]| <= |r.1.queues[q]| && r.1.queues[q][..|st.queues[q]|] == st.queues[q]
      && var records := r.1.queues[q][|st.queues[q]|..];
      && (forall i :: 0 <= i < |records| ==> IsRecord(records[i]))
      && Concat(records) + Flat(r.1.bufs[b]) == Flat(st.bufs[b]) + Flat(extra)
      && NoRecord(r.1.bufs[b])
  {
    var inFrags := st.bufs[b];
    var e := Packetize(inFrags + extra, 0, 0, 0).value;
    var cont := AtGlobal(inFrags, e.final.fragNo, e.final.partNo);
    var steps := RemakeStepsIntended(b, q, inFrags, extra).value;
    assert steps == [CullPrefixAndMerge(b, extra, cont), PackWrite(q, e.records)];
    RoundBytesIntended(inFrags, extra, e);
    RunTwo(st, b, extra, cont, q, e.records);
  }

  /** A cull that ends normally followed by a queue write. */
  lemma RunTwo(st: Store, b: FragBuf, extra: seq<Fragment>, cont: PackContR, q: PacketQueue, records: seq<string>)
    requires b in st.bufs && q in st.queues && CullResult(st.bufs[b], extra, cont).0 == Done
    ensures var steps := [CullPrefixAndMerge(b, extra, cont), PackWrite(q, records)];
      && CoversAll(st, steps)
      && RunSteps(st, steps)
        == (Done, Store(st.bufs[b := CullResult(st.bufs[b], extra, cont).1], st.queues[q := st.queues[q] + records]))
  {
    var steps := [CullPrefixAndMerge(b, extra, cont), PackWrite(q, records)];
    var st1 := st.(bufs := st.bufs[b := CullResult(st.bufs[b], extra, cont).1]);
    RunStepsFirst(st, steps);
    assert steps[1..] == [PackWrite(q, records)];
    RunStepsFirst(st1, steps[1..]);
    assert steps[1..][1..] == [];
  }

  /**
   * Since the buffered bytes hold no '\n', the pass as written that stops
   * inside them took no record and stopped at byte 0.
   */
  lemma BufferedTakesNothing(inFrags: seq<Fragment>, extra: seq<Fragment>, e: Extracted)
    requires NoRecord(inFrags)
    requires PacketizeAsWritten(inFrags + extra, 0, 0, 0) == Ok(e) && e.final.fragNo < |inFrags|
    ensures e.records == [] && e.final.partNo == 0 && Offset(inFrags, e.final) == 0
  {
    PacketizeAsWrittenMeaning(inFrags + extra, 0, 0, 0);
    BufferedTakesNothingIntended(inFrags, extra, Packetize(inFrags + extra, 0, 0, 0).value);
  }

  /**
   * A round as written on the bytes: the cull ends normally at the
   * corrected pass's cursor; each record as written ends with the
   * corrected record; the corrected records and the kept bytes are the
   * buffered bytes followed by the read ones; the kept bytes hold no '\n'.
   */
  lemma RoundBytes(inFrags: seq<Fragment>, extra: seq<Fragment>, e: Extracted)
    requires NoRecord(inFrags) && PacketizeAsWritten(inFrags + extra, 0, 0, 0) == Ok(e)
    ensures Packetize(inFrags + extra, 0, 0, 0).Ok?
    ensures var c := Packetize(inFrags + extra, 0, 0, 0).value;
      var cull := CullResult(inFrags, extra, AtGlobal(inFrags, e.final.fragNo, e.final.partNo));
      && cull.0 == Done
      && Widens(e, c)
      && (forall i :: 0 <= i < |c.records| ==> IsRecord(c.records[i]))
      && Concat(c.records) + Flat(cull.1) == Flat(inFrags) + Flat(extra)
      && NoRecord(cull.1)
  {
    PacketizeAsWrittenMeaning(inFrags + extra, 0, 0, 0);
    RoundBytesIntended(inFrags, extra, Packetize(inFrags + extra, 0, 0, 0).value);
  }

  /** A string ending with a record ends in '\n'. */
  lemma EndsInNewline(s: string, t: string)
    requires EndsWith(s, t) && IsRecord(t)
    ensures |s| > 0 && s[|s| - 1] == '\n'
  {
    assert s[|s| - |t|..][|t| - 1] == s[|s| - 1];
  }

  /**
   * One pipe's share of a round, as written: the queued steps end
   * normally; only its own buffer and queue change; the queue gets, after
   * what it held, one entry per record of the corrected pass, each ending
   * with that record (so in '\n'); the corrected records and what stays
   * in the buffer are the buffered bytes followed by the read ones; the
   * buffer again holds no '\n'.
   */
  lemma PipeRound(st: Store, b: FragBuf, q: PacketQueue, extra: seq<Fragment>)
    requires b in st.bufs && q in st.queues && NoRecord(st.bufs[b])
    requires RemakeSteps(b, q, st.bufs[b], extra).Ok?
    ensures Packetize(st.bufs[b] + extra, 0, 0, 0).Ok?
    ensures var steps := RemakeSteps(b, q, st.bufs[b], extra).value;
      && CoversAll(st, steps)
      && var r := RunSteps(st, steps);
      && r.0 == Done
      && (forall b' :: b' in st.bufs && b' != b ==> r.1.bufs[b'] == st.bufs[b'])
      && (forall q' :: q' in st.queues && q' != q ==> r.1.queues[q'] == st.queues[q'])
      && |st.queues[q]| <= |r.1.queues[q]| && r.1.queues[q][..|st.queues[q]|] == st.queues[q]
      && var records := r.1.queues[q][|st.queues[q]|..];
      && var c := Packetize(st.bufs[b] + extra, 0, 0, 0).value.records;
      && |records| == |c|
      && (forall i :: 0 <= i < |records| ==>
            && EndsWith(records[i], c[i]) && IsRecord(c[i])
            && |records[i]| > 0 && records[i][|records[i]| - 1] == '\n')
      && Concat(c) + Flat(r.1.bufs[b]) == Flat(st.bufs[b]) + Flat(extra)
      && NoRecord(r.1.bufs[b])
  {
    var inFrags := st.bufs[b];
    var e := PacketizeAsWritten(inFrags + extra, 0, 0, 0).value;
    var c := Packetize(inFrags + extra, 0, 0, 0);
    var cont := AtGlobal(inFrags, e.final.fragNo, e.final.partNo);
    assert RemakeSteps(b, q, inFrags, extra).value == [CullPrefixAndMerge(b, extra, cont), PackWrite(q, e.records)];
    RoundBytes(inFrags, extra, e);
    RunTwo(st, b, extra, cont, q, e.records);
    assert (st.queues[q] + e.records)[|st.queues[q]|..] == e.records;
    forall i | 0 <= i < |e.records|
      ensures |e.records[i]| > 0 && e.records[i][|e.records[i]| - 1] == '\n'
    {
      EndsInNewline(e.records[i], c.value.records[i]);
    }
  }

  /**
   * Where no fragment read holds two '\n', a round as written queues
   * exactly the steps of the corrected round (see PipeRoundIntended).
   */
  lemma PipeRoundOneNewline(b: FragBuf, q: PacketQueue, inFrags: seq<Fragment>, extra: seq<Fragment>)
    requires NoRecord(inFrags) && OneNewlinePerFragment(extra)
    ensures RemakeSteps(b, q, inFrags, extra) == RemakeStepsIntended(b, q, inFrags, extra)
  {
    var all := inFrags + extra;
    forall f, i, j | 0 <= f < |all| && 0 <= i < j < |all[f].data| && all[f].data[i] == '\n'
      ensures all[f].data[j] != '\n'
    {
      if f < |inFrags| {
        assert all[f] == inFrags[f];
        ByteAt(inFrags, f, i);
      } else {
        assert all[f] == extra[f - |inFrags|];
      }
    }
    PacketizeOneNewlineAgrees(all, 0, 0, 0);
  }

  /**
   * Two records in one read fragment: an empty pipe that reads "a\nb\nc"
   * queues "a\n" and then "a\nb\n", and keeps "c"; the corrected round
   * queues "a\n" and "b\n".
   */
  lemma PipeRoundDuplicates(st: Store, b: FragBuf, q: PacketQueue, stamp: Stamp)
    requires b in st.bufs && q in st.queues && st.bufs[b] == []
    ensures var extra := [Fragment(stamp, "a\nb\nc")];
      && RemakeSteps(b, q, [], extra).Ok? && RemakeStepsIntended(b, q, [], extra).Ok?
      && RunSteps(st, RemakeSteps(b, q, [], extra).value)
        == (Done, Store(st.bufs[b := [Fragment(stamp, "c")]], st.queues[q := st.queues[q] + ["a\n", "a\nb\n"]]))
      && RunSteps(st, RemakeStepsIntended(b, q, [], extra).value)
        == (Done, Store(st.bufs[b := [Fragment(stamp, "c")]], st.queues[q := st.queues[q] + ["a\n", "b\n"]]))
  {
    var extra := [Fragment(stamp, "a\nb\nc")];
    assert [] + extra == extra;
    PacketizeDuplicates(stamp);
    var cont := AtGlobal([], 0, 4);
    assert extra[0].data[4..] == "c" && extra[1..] == [];
    assert cont == PackContR(0, 4, false);
    assert |extra[0].data| == 5 && [Fragment(stamp, "c")] + [] == [Fragment(stamp, "c")];
    assert SuffixFrom(extra, PackCont(0, 4)) == [Fragment(stamp, "c")];
    assert SuffixCopy(extra, PackCont(0, 4)) == Some([Fragment(stamp, "c")]);
    assert CullResult([], extra, cont) == (Done, [Fragment(stamp, "c")]);
    RunTwo(st, b, extra, cont, q, ["a\n", "a\nb\n"]);
    RunTwo(st, b, extra, cont, q, ["a\n", "b\n"]);
  }

  /** Running a queue in two parts: the second part starts where the first ended normally. */
  lemma {:induction false} RunStepsAppend(st: Store, a: seq<Step>, b: seq<Step>)
    requires CoversAll(st, a + b)
    ensures CoversAll(st, a) && CoversAll(st, b)
    ensures RunSteps(st, a).0 != Done ==> RunSteps(st, a + b) == RunSteps(st, a)
    ensures RunSteps(st, a).0 == Done ==>
      CoversAll(RunSteps(st, a).1, b) && RunSteps(st, a + b) == RunSteps(RunSteps(st, a).1, b)
    decreases |a|
  {
    forall i | 0 <= i < |a| ensures Covers(st, a[i]) {
      assert (a + b)[i] == a[i];
    }
    forall i | 0 <= i < |b| ensures Covers(st, b[i]) {
      assert (a + b)[|a| + i] == b[i];
    }
    if a == [] {
      assert a + b == b;
    } else {
      RunStepsFirst(st, a + b);
      RunStepsFirst(st, a);
      assert (a + b)[0] == a[0];
      assert (a + b)[1..] == a[1..] + b;
      var s1 := Apply(st, a[0]).1;
      if Apply(st, a[0]).0 == Done {
        RunStepsAppend(s1, a[1..], b);
      }
    }
  }

  /** The reads name each connection at most once. */
  predicate DistinctTokens(srs: seq<ReadEntry>)
  {
    forall i, j :: 0 <= i < j < |srs| ==> srs[i].tok != srs[j].tok
  }

  /** No read names the token t. */
  predicate Unread(srs: seq<ReadEntry>, t: ConToken)
  {
    forall i :: 0 <= i < |srs| ==> srs[i].tok != t
  }

  /** Every pipe's in buffer holds no '\n'. */
  ghost predicate PipesNoRecord(st: Store, pipes: map<ConToken, PipePacket>)
    requires Holds(st, pipes)
  {
    forall t :: t in pipes ==> NoRecord(st.bufs[pipes[t].inBuf])
  }

  /**
   * A whole round of PipeSet::RemakeForRead, as written: for pipes that
   * share no buffer, each holding no '\n', and reads naming each
   * connection at most once (StagedRead visits each connection once),
   * the queued steps all end normally, every pipe's buffer again holds
   * no '\n', and the buffer of a pipe no read names is unchanged.
   */
  lemma {:induction false} SetRound(pipes: map<ConToken, PipePacket>, st: Store, srs: seq<ReadEntry>)
    requires Holds(st, pipes) && Disjoint(pipes) && DistinctTokens(srs) && PipesNoRecord(st, pipes)
    requires Collect(pipes, st, srs).Ok?
    ensures var r := RunSteps(st, Collect(pipes, st, srs).value);
      && r.0 == Done && Holds(r.1, pipes) && PipesNoRecord(r.1, pipes)
      && (forall t :: t in pipes && Unread(srs, t) ==> r.1.bufs[pipes[t].inBuf] == st.bufs[pipes[t].inBuf])
    decreases |srs|
  {
    var steps := Collect(pipes, st, srs).value;
    if srs == [] {
      assert steps == [];
    } else {
      var n := |srs| - 1;
      var pre := srs[..n];
      assert DistinctTokens(pre);
      var preSteps := Collect(pipes, st, pre).value;
      SetRound(pipes, st, pre);
      var s1 := RunSteps(st, preSteps).1;
      forall t | t in pipes && Unread(srs, t) ensures Unread(pre, t) {
      }
      var tk := srs[n].tok;
      if tk !in pipes {
        assert steps == preSteps;
      } else {
        var p := pipes[tk];
        var extra := srs[n].inFrags;
        var s := RemakeSteps(p.inBuf, p.inPack, st.bufs[p.inBuf], extra).value;
        assert steps == preSteps + s;
        RunStepsAppend(st, preSteps, s);
        assert Unread(pre, tk);
        assert s1.bufs[p.inBuf] == st.bufs[p.inBuf];
        PipeRound(s1, p.inBuf, p.inPack, extra);
        var r := RunSteps(s1, s);
        forall t | t in pipes ensures NoRecord(r.1.bufs[pipes[t].inBuf]) {
          if t != tk {
            assert pipes[t].inBuf != p.inBuf;
          }
        }
        forall t | t in pipes && Unread(srs, t) ensures r.1.bufs[pipes[t].inBuf] == st.bufs[pipes[t].inBuf] {
          assert srs[n].tok != t;
          assert pipes[t].inBuf != p.inBuf;
        }
      }
    }
  }

  /** StagedRead visits each connection once, so its read entries name distinct connections. */
  lemma {:induction false} StageAllDistinct(toks: seq<ConToken>, ready: seq<bool>, outcomes: map<ConToken, ReadOutcome>)
    requires |ready| == |toks|
    requires forall i :: 0 <= i < |toks| ==> toks[i] in outcomes
    requires forall i, j :: 0 <= i < j < |toks| ==> toks[i] != toks[j]
    ensures DistinctTokens(StageAll(toks, ready, outcomes).r)
    decreases |toks|
  {
    if toks != [] {
      var n := |toks| - 1;
      var t0, r0 := toks[..n], ready[..n];
      StageAllDistinct(t0, r0, outcomes);
      StageAllReads(t0, r0, outcomes);
      var s0 := StageAll(t0, r0, outcomes);
      forall i | 0 <= i < |s0.r| ensures s0.r[i].tok != toks[n] {
        assert s0.r[i] in s0.r;
        assert ReadFor(t0, r0, outcomes, s0.r[i]);
      }
    }
  }
}
