/**
 * The connection tables: the outcome classification of MessSock::StagedRead
 * and MessSock::AcceptedConsMulti over abstract sockets, and the fully
 * in-memory table MessMemonly over PrimitiveMemonly queues.
 */
module Connections {
  import opened Wrappers
  import opened Fragments
  import opened Tokens

  /**
   * How a read ends: NetBlockExc (would block), NetDisconnectExc (peer
   * closed) or any other NetFailureExc. NetDisconnectExc derives from
   * NetFailureExc, so the handlers must try it first.
   */
  datatype NetExc = NetBlockExc | NetDisconnectExc | NetFailureExc

  /** MessSock::StagedRead_t: the fragments read from one connection. */
  datatype ReadEntry = ReadEntry(tok: ConToken, inFrags: seq<Fragment>)

  /** MessSock::StagedDisc_t: a connection found closed. */
  datatype DiscEntry = DiscEntry(tok: ConToken, graceful: bool)

  /** MessSock::Staged_t: the read and disconnect entries of one round. */
  datatype Staged = Staged(r: seq<ReadEntry>, d: seq<DiscEntry>)

  /** A socket handle (PollFdType); nothing here looks inside it. */
  type PollFd = int

  /** MessSock::CtData; in, out and knownClosed keep their initial values. */
  datatype CtData = CtData(pfd: PollFd, inFrags: seq<Fragment>, outFrags: seq<Fragment>, knownClosed: bool)

  /** The result of one WSAPoll: it fails, or gives one readiness bit per connection. */
  datatype Poll = PollFailed | Polled(ready: seq<bool>)

  /** What reading one connection produced: the fragments, then the exception that ended the recv loop. */
  datatype ReadOutcome = ReadOutcome(frags: seq<Fragment>, end: NetExc)

  /** The try/catch chain of StagedRead for one connection. */
  function Classify(tok: ConToken, e: NetExc): (r: Option<DiscEntry>)
    ensures r.None? <==> e == NetBlockExc
    ensures r.Some? ==> r.value.tok == tok
    ensures r.Some? ==> (r.value.graceful <==> e == NetDisconnectExc)
  {
    match e
    case NetBlockExc => None
    case NetDisconnectExc => Some(DiscEntry(tok, true))
    case NetFailureExc => Some(DiscEntry(tok, false))
  }

  /** The entries one visited connection adds to the round. */
  function StageOne(acc: Staged, tok: ConToken, ready: bool, o: ReadOutcome): Staged
  {
    if !ready then acc
    else
      var d := Classify(tok, o.end);
      Staged(acc.r + (if o.frags == [] then [] else [ReadEntry(tok, o.frags)]),
             acc.d + (if d.None? then [] else [d.value]))
  }

  /** The entries of a round that visits toks in order with the given readiness bits. */
  function StageAll(toks: seq<ConToken>, ready: seq<bool>, outcomes: map<ConToken, ReadOutcome>): Staged
    requires |ready| == |toks|
    requires forall i :: 0 <= i < |toks| ==> toks[i] in outcomes
  {
    if toks == [] then Staged([], [])
    else
      var n := |toks| - 1;
      StageOne(StageAll(toks[..n], ready[..n], outcomes), toks[n], ready[n], outcomes[toks[n]])
  }

  /** Connection i of the round was ready and produced fragments: it owes the read entry e. */
  ghost predicate ReadFor(toks: seq<ConToken>, ready: seq<bool>, outcomes: map<ConToken, ReadOutcome>, e: ReadEntry)
  {
    exists i :: 0 <= i < |toks| && i < |ready| && ready[i] && toks[i] in outcomes
      && outcomes[toks[i]].frags != [] && e == ReadEntry(toks[i], outcomes[toks[i]].frags)
  }

  /** Connection i of the round was ready and its read did not block: it owes the disconnect entry e. */
  ghost predicate DiscFor(toks: seq<ConToken>, ready: seq<bool>, outcomes: map<ConToken, ReadOutcome>, e: DiscEntry)
  {
    exists i :: 0 <= i < |toks| && i < |ready| && ready[i] && toks[i] in outcomes
      && outcomes[toks[i]].end != NetBlockExc && e == DiscEntry(toks[i], outcomes[toks[i]].end == NetDisconnectExc)
  }

  /** What one connection adds to the staged lists. */
  lemma StageOneEntries(s0: Staged, t: ConToken, ready: bool, o: ReadOutcome)
    ensures forall e :: e in StageOne(s0, t, ready, o).r <==> e in s0.r || (ready && o.frags != [] && e == ReadEntry(t, o.frags))
    ensures forall e :: e in StageOne(s0, t, ready, o).d <==>
      e in s0.d || (ready && o.end != NetBlockExc && e == DiscEntry(t, o.end == NetDisconnectExc))
  {
  }

  /**
   * A round stages one read entry, holding what was received, for each
   * polled-ready connection that received something, also when the read
   * then ended in a disconnect, and nothing else.
   */
  lemma {:induction false} StageAllReads(toks: seq<ConToken>, ready: seq<bool>, outcomes: map<ConToken, ReadOutcome>)
    requires |ready| == |toks|
    requires forall i :: 0 <= i < |toks| ==> toks[i] in outcomes
    ensures forall e :: e in StageAll(toks, ready, outcomes).r <==> ReadFor(toks, ready, outcomes, e)
    decreases |toks|
  {
    if toks != [] {
      var n := |toks| - 1;
      var t0, r0 := toks[..n], ready[..n];
      StageAllReads(t0, r0, outcomes);
      var s0 := StageAll(t0, r0, outcomes);
      StageOneEntries(s0, toks[n], ready[n], outcomes[toks[n]]);
      forall e ensures e in StageAll(toks, ready, outcomes).r <==> ReadFor(toks, ready, outcomes, e)
      {
        if e in s0.r {
          var i :| 0 <= i < |t0| && i < |r0| && r0[i] && t0[i] in outcomes && outcomes[t0[i]].frags != [] && e == ReadEntry(t0[i], outcomes[t0[i]].frags);
          assert t0[i] == toks[i] && r0[i] == ready[i];
        }
        if ReadFor(toks, ready, outcomes, e) {
          var i :| 0 <= i < |toks| && i < |ready| && ready[i] && toks[i] in outcomes && outcomes[toks[i]].frags != [] && e == ReadEntry(toks[i], outcomes[toks[i]].frags);
          if i < n {
            assert t0[i] == toks[i] && r0[i] == ready[i];
            assert ReadFor(t0, r0, outcomes, e);
          }
        }
      }
    }
  }

  /**
   * A round stages one disconnect for each polled-ready connection whose
   * read ended in anything but "would block" (graceful exactly when the
   * peer disconnected), and nothing else.
   */
  lemma {:induction false} StageAllDiscs(toks: seq<ConToken>, ready: seq<bool>, outcomes: map<ConToken, ReadOutcome>)
    requires |ready| == |toks|
    requires forall i :: 0 <= i < |toks| ==> toks[i] in outcomes
    ensures forall e :: e in StageAll(toks, ready, outcomes).d <==> DiscFor(toks, ready, outcomes, e)
    decreases |toks|
  {
    if toks != [] {
      var n := |toks| - 1;
      var t0, r0 := toks[..n], ready[..n];
      StageAllDiscs(t0, r0, outcomes);
      var s0 := StageAll(t0, r0, outcomes);
      StageOneEntries(s0, toks[n], ready[n], outcomes[toks[n]]);
      forall e ensures e in StageAll(toks, ready, outcomes).d <==> DiscFor(toks, ready, outcomes, e)
      {
        if e in s0.d {
          var i :| 0 <= i < |t0| && i < |r0| && r0[i] && t0[i] in outcomes && outcomes[t0[i]].end != NetBlockExc && e == DiscEntry(t0[i], outcomes[t0[i]].end == NetDisconnectExc);
          assert t0[i] == toks[i] && r0[i] == ready[i];
        }
        if DiscFor(toks, ready, outcomes, e) {
          var i :| 0 <= i < |toks| && i < |ready| && ready[i] && toks[i] in outcomes && outcomes[toks[i]].end != NetBlockExc && e == DiscEntry(toks[i], outcomes[toks[i]].end == NetDisconnectExc);
          if i < n {
            assert t0[i] == toks[i] && r0[i] == ready[i];
            assert DiscFor(t0, r0, outcomes, e);
          }
        }
      }
    }
  }

  /** The entries of a round are in strictly ascending token order. */
  ghost predicate Ascending(s: Staged)
  {
    && (forall i, j :: 0 <= i < j < |s.r| ==> s.r[i].tok < s.r[j].tok)
    && (forall i, j :: 0 <= i < j < |s.d| ==> s.d[i].tok < s.d[j].tok)
  }

  /** Every entry of a round names a token below b. */
  ghost predicate AllBelow(s: Staged, b: ConToken)
  {
    && (forall i :: 0 <= i < |s.r| ==> s.r[i].tok < b)
    && (forall i :: 0 <= i < |s.d| ==> s.d[i].tok < b)
  }

  /** A round over tokens below b stages only tokens below b. */
  lemma {:induction false} StageAllBelow(toks: seq<ConToken>, ready: seq<bool>, outcomes: map<ConToken, ReadOutcome>, b: ConToken)
    requires |ready| == |toks|
    requires forall i :: 0 <= i < |toks| ==> toks[i] in outcomes
    requires forall i :: 0 <= i < |toks| ==> toks[i] < b
    ensures AllBelow(StageAll(toks, ready, outcomes), b)
    decreases |toks|
  {
    if toks != [] {
      var n := |toks| - 1;
      StageAllBelow(toks[..n], ready[..n], outcomes, b);
    }
  }

  /** Staging a token above every earlier entry keeps the round ascending. */
  lemma StageOneAscending(s0: Staged, t: ConToken, ready: bool, o: ReadOutcome)
    requires Ascending(s0) && AllBelow(s0, t)
    ensures Ascending(StageOne(s0, t, ready, o))
  {
  }

  /** Visiting connections in ascending token order stages the entries in ascending token order. */
  lemma {:induction false} StageAllOrdered(toks: seq<ConToken>, ready: seq<bool>, outcomes: map<ConToken, ReadOutcome>)
    requires |ready| == |toks|
    requires forall i :: 0 <= i < |toks| ==> toks[i] in outcomes
    requires forall i, j :: 0 <= i < j < |toks| ==> toks[i] < toks[j]
    ensures Ascending(StageAll(toks, ready, outcomes))
    decreases |toks|
  {
    if toks != [] {
      var n := |toks| - 1;
      StageAllOrdered(toks[..n], ready[..n], outcomes);
      StageAllBelow(toks[..n], ready[..n], outcomes, toks[n]);
      StageOneAscending(StageAll(toks[..n], ready[..n], outcomes), toks[n], ready[n], outcomes[toks[n]]);
    }
  }

  /** Visiting the smallest remaining token first keeps the ascending order. */
  lemma SortedKeysStep(t: ConToken, s: set<ConToken>)
    requires t in s && IsMin(t, s)
    ensures SortedKeys(s) == [t] + SortedKeys(s - {t})
  {
    MinUnique(t, s);
  }

  /** The sorted keys of all are the visited ones followed by the sorted rest, one step further. */
  lemma SortedKeysAdvance(all: set<ConToken>, done: seq<ConToken>, t: ConToken, remaining: set<ConToken>)
    requires SortedKeys(all) == done + SortedKeys(remaining)
    requires t in remaining && IsMin(t, remaining)
    ensures SortedKeys(all) == (done + [t]) + SortedKeys(remaining - {t})
  {
    SortedKeysStep(t, remaining);
  }

  /** One more visited connection extends the round by StageOne. */
  lemma StageAllSnoc(done: seq<ConToken>, t: ConToken, ready: seq<bool>, outcomes: map<ConToken, ReadOutcome>)
    requires |done| < |ready|
    requires forall i :: 0 <= i < |done| ==> done[i] in outcomes
    requires t in outcomes
    ensures StageAll(done + [t], ready[..|done| + 1], outcomes)
         == StageOne(StageAll(done, ready[..|done|], outcomes), t, ready[|done|], outcomes[t])
  {
    assert (done + [t])[..|done|] == done;
    assert ready[..|done| + 1][..|done|] == ready[..|done|];
  }

  /**
   * The body of the StagedRead loop for one connection: skip it unless the
   * poll marked it ready; otherwise classify how its read ended and stage
   * what it read, even when the read ended in a disconnect or failure.
   */
  method StageConnection(rs: seq<ReadEntry>, ds: seq<DiscEntry>, t: ConToken, ready: bool, o: ReadOutcome)
    returns (rs': seq<ReadEntry>, ds': seq<DiscEntry>)
    ensures Staged(rs', ds') == StageOne(Staged(rs, ds), t, ready, o)
  {
    rs', ds' := rs, ds;
    if ready {
      var d := Classify(t, o.end);
      if d.Some? {
        ds' := ds' + [d.value];
      }
      if o.frags != [] {
        rs' := rs' + [ReadEntry(t, o.frags)];
      }
    }
  }

  /**
   * MessSock over abstract sockets. The poll helper (MessSockSlave) and
   * the recv loop are inputs of StagedRead rather than state.
   */
  class MessSock {
    var tokenGen: ConTokenGen
    var cons: map<ConToken, CtData>
    var numCons: int

    /** Tokens in use are never free, and numCons tracks the table size. */
    ghost predicate Valid()
      reads this, tokenGen
    {
      cons.Keys !! tokenGen.toks && numCons == |cons|
    }

    constructor ()
      ensures Valid() && fresh(tokenGen)
      ensures cons == map[] && tokenGen.toks == Ids(0, MaxTokens)
    {
      tokenGen := new ConTokenGen();
      cons := map[];
      numCons := 0;
    }

    /** The exception handler of AcceptedConsMulti: every token taken goes back to the generator. */
    method ReturnTokens(toks: seq<ConToken>)
      modifies tokenGen
      ensures forall u :: u in tokenGen.toks <==> u in old(tokenGen.toks) || u in toks
    {
      var j := 0;
      while j < |toks|
        invariant 0 <= j <= |toks|
        invariant forall u :: u in tokenGen.toks <==> u in old(tokenGen.toks) || u in toks[..j]
      {
        tokenGen.ReturnToken(toks[j]);
        j := j + 1;
      }
      assert toks[..j] == toks;
    }

    /**
     * The token-taking part of MessSock::AcceptedConsMulti: one GetToken
     * per socket. When the generator runs out ("Out of tokens"), the
     * handler returns every token taken so far and the result is None.
     */
    method TakeTokens(n: nat) returns (r: Option<seq<ConToken>>)
      modifies tokenGen
      ensures r.Some? <==> n <= |old(tokenGen.toks)|
      ensures r.Some? ==> r.value == Issue(old(tokenGen.toks), n) && tokenGen.toks == Remaining(old(tokenGen.toks), n)
      ensures r.None? ==> tokenGen.toks == old(tokenGen.toks)
    {
      ghost var free := tokenGen.toks;
      var newToks: seq<ConToken> := [];
      while |newToks| < n
        invariant |newToks| <= n && |newToks| <= |free|
        invariant newToks == Issue(free, |newToks|)
        invariant tokenGen.toks == Remaining(free, |newToks|)
      {
        IssueSnoc(free, |newToks|);
        IssueRemaining(free, |newToks|);
        var t := tokenGen.GetToken();
        if t.None? {
          ReturnTokens(newToks);
          assert tokenGen.toks == free;
          return None;
        }
        newToks := newToks + [t.value];
      }
      return Some(newToks);
    }

    /**
     * MessSock::AddConsMulti without its rollback: insert each socket
     * under its token. A token already in the table would throw, which the
     * requires rules out.
     */
    method AddConsMulti(pfds: seq<PollFd>, toks: seq<ConToken>)
      requires |toks| == |pfds|
      requires forall i :: 0 <= i < |toks| ==> toks[i] !in cons
      requires forall i, j :: 0 <= i < j < |toks| ==> toks[i] < toks[j]
      modifies this
      ensures tokenGen == old(tokenGen) && numCons == old(numCons)
      ensures forall t :: t in cons <==> t in old(cons) || t in toks
      ensures forall i :: 0 <= i < |toks| ==> cons[toks[i]] == CtData(pfds[i], [], [], false)
      ensures forall t :: t in old(cons) ==> cons[t] == old(cons)[t]
    {
      var i := 0;
      while i < |pfds|
        invariant 0 <= i <= |pfds|
        invariant forall u :: u in cons <==> u in old(cons) || u in toks[..i]
        invariant forall k :: 0 <= k < i ==> cons[toks[k]] == CtData(pfds[k], [], [], false)
        invariant forall u :: u in old(cons) ==> cons[u] == old(cons)[u]
        invariant tokenGen == old(tokenGen) && numCons == old(numCons)
      {
        if toks[i] in cons {
          assert false;
        }
        cons := cons[toks[i] := CtData(pfds[i], [], [], false)];
        i := i + 1;
      }
      assert toks[..i] == toks;
    }

    /**
     * MessSock::AcceptedConsMulti: nothing for no sockets; otherwise take
     * one token per socket, insert them all and refresh numCons. When the
     * generator runs out, the table and the free set are left as they were.
     */
    method AcceptedConsMulti(pfds: seq<PollFd>) returns (ok: bool)
      requires Valid()
      modifies this, tokenGen
      ensures Valid() && tokenGen == old(tokenGen)
      ensures ok <==> |pfds| <= |old(tokenGen.toks)|
      ensures !ok ==> cons == old(cons) && tokenGen.toks == old(tokenGen.toks)
      ensures ok ==> tokenGen.toks == Remaining(old(tokenGen.toks), |pfds|)
      ensures ok ==> var ts := Issue(old(tokenGen.toks), |pfds|);
        && |ts| == |pfds|
        && (forall t :: t in cons <==> t in old(cons) || t in ts)
        && (forall i :: 0 <= i < |pfds| ==> ts[i] in cons && cons[ts[i]] == CtData(pfds[i], [], [], false))
        && (forall t :: t in old(cons) ==> cons[t] == old(cons)[t])
    {
      ghost var free := tokenGen.toks;
      IssueDistinct(free, |pfds|);
      IssueRemaining(free, |pfds|);
      if |pfds| == 0 {
        return true;
      }
      var newToks := TakeTokens(|pfds|);
      if newToks.None? {
        return false;
      }
      AddConsMulti(pfds, newToks.value);
      numCons := |cons|;
      ok := true;
    }

    /**
     * MessSock::StagedRead: nothing with no connections (the poll is not
     * issued); a failed poll throws; otherwise the connections are visited
     * in ascending token order, each with its own readiness bit.
     */
    method StagedRead(poll: Poll, outcomes: map<ConToken, ReadOutcome>) returns (r: Option<Staged>)
      requires Valid()
      requires poll.Polled? ==> |poll.ready| == |cons|
      requires cons.Keys <= outcomes.Keys
      ensures numCons == 0 ==> r == Some(Staged([], []))
      ensures numCons != 0 && poll.PollFailed? ==> r == None
      ensures numCons != 0 && poll.Polled? ==> r == Some(StageAll(SortedKeys(cons.Keys), poll.ready, outcomes))
    {
      if numCons == 0 {
        return Some(Staged([], []));
      }
      if poll.PollFailed? {
        return None;
      }
      var pollres := poll.ready;
      var idx := 0;
      var remaining := cons.Keys;
      var rs: seq<ReadEntry> := [];
      var ds: seq<DiscEntry> := [];
      ghost var keys := SortedKeys(cons.Keys);
      ghost var done: seq<ConToken> := [];
      while remaining != {}
        invariant remaining <= cons.Keys
        invariant keys == done + SortedKeys(remaining)
        invariant idx == |done| && |done| + |remaining| == |cons|
        invariant forall i :: 0 <= i < |done| ==> done[i] in cons
        invariant Staged(rs, ds) == StageAll(done, pollres[..idx], outcomes)
        decreases |remaining|
      {
        MinExists(remaining);
        var t :| t in remaining && IsMin(t, remaining);
        SortedKeysAdvance(cons.Keys, done, t, remaining);
        StageAllSnoc(done, t, pollres, outcomes);
        rs, ds := StageConnection(rs, ds, t, pollres[idx], outcomes[t]);
        done := done + [t];
        idx := idx + 1;
        remaining := remaining - {t};
      }
      assert SortedKeys(remaining) == [] && done + [] == done;
      assert pollres[..idx] == pollres;
      return Some(Staged(rs, ds));
    }
  }

  /** One element of a null-terminated array of C strings. */
  datatype CStr = Null | Str(s: string)

  /**
   * NetStuff::PrimitiveMemonly: the fragments written to it and the
   * fragments waiting to be read. It is held by value in MessMemonly's
   * table, so it is a value here.
   */
  datatype PrimitiveMemonly = PrimitiveMemonly(write: seq<Fragment>, read: seq<Fragment>)

  /** The array has a null pointer somewhere. */
  ghost predicate HasNull(strs: seq<CStr>)
  {
    exists j :: 0 <= j < |strs| && strs[j].Null?
  }

  /** The index of the first null pointer. */
  function FirstNull(strs: seq<CStr>): (r: nat)
    requires HasNull(strs)
    ensures r < |strs| && strs[r].Null?
    ensures forall k :: 0 <= k < r ==> strs[k].Str?
    decreases |strs|
  {
    if strs[0].Null? then 0
    else
      var j :| 0 <= j < |strs| && strs[j].Null?;
      assert strs[1..][j - 1].Null?;
      1 + FirstNull(strs[1..])
  }

  /** A null preceded only by strings is the first null. */
  lemma FirstNullIs(strs: seq<CStr>, r: nat)
    requires r < |strs| && strs[r].Null?
    requires forall k :: 0 <= k < r ==> strs[k].Str?
    ensures HasNull(strs) && FirstNull(strs) == r
  {
  }

  /** One fragment with EmptyStamp per string. */
  function ReadOf(strs: seq<CStr>): (r: seq<Fragment>)
    requires forall k :: 0 <= k < |strs| ==> strs[k].Str?
    ensures |r| == |strs|
    ensures forall k :: 0 <= k < |strs| ==> r[k] == Fragment(EmptyStamp, strs[k].s)
  {
    seq(|strs|, k requires 0 <= k < |strs| => Fragment(EmptyStamp, strs[k].s))
  }

  /**
   * PrimitiveMemonly::PrimitiveMemonly(const char **strs): one fragment
   * per string up to the first null, in order; nothing written. Reading
   * past the array without a null is undefined behaviour, hence the
   * requires.
   */
  method NewPrimitiveMemonly(strs: seq<CStr>) returns (p: PrimitiveMemonly)
    requires HasNull(strs)
    ensures p == PrimitiveMemonly([], ReadOf(strs[..FirstNull(strs)]))
  {
    var read: seq<Fragment> := [];
    var i := 0;
    while strs[i].Str?
      invariant 0 <= i <= FirstNull(strs)
      invariant read == ReadOf(strs[..i])
      decreases |strs| - i
    {
      read := read + [Fragment(EmptyStamp, strs[i].s)];
      i := i + 1;
    }
    p := PrimitiveMemonly([], read);
  }

  /**
   * The arrays MakePrims walks without leaving the array: groups of
   * strings, each closed by a null, then one more null.
   */
  ghost predicate Parses(strs: seq<CStr>)
    decreases |strs|
  {
    |strs| > 0 && (strs[0].Null? || (HasNull(strs) && Parses(strs[FirstNull(strs) + 1..])))
  }

  /** The primitives MakePrims builds: one per group, in order. */
  ghost function PrimsOf(strs: seq<CStr>): seq<PrimitiveMemonly>
    requires Parses(strs)
    decreases |strs|
  {
    if strs[0].Null? then []
    else [PrimitiveMemonly([], ReadOf(strs[..FirstNull(strs)]))] + PrimsOf(strs[FirstNull(strs) + 1..])
  }

  /** PrimitiveMemonly::MakePrims: build one primitive per null-closed group until an empty group. */
  method MakePrims(strs: seq<CStr>) returns (ret: seq<PrimitiveMemonly>)
    requires Parses(strs)
    ensures ret == PrimsOf(strs)
  {
    ret := [];
    var idx := 0;
    while strs[idx].Str?
      invariant idx < |strs| && Parses(strs[idx..])
      invariant PrimsOf(strs) == ret + PrimsOf(strs[idx..])
      decreases |strs| - idx
    {
      var p := NewPrimitiveMemonly(strs[idx..]);
      MakePrimsStep(strs, idx);
      ret := ret + [p];
      var i := SkipGroup(strs, idx);
      idx := i + 1;
    }
  }

  /** The inner loop of MakePrims: find the null that closes the group starting at idx. */
  method SkipGroup(strs: seq<CStr>, idx: nat) returns (i: nat)
    requires idx <= |strs| && HasNull(strs[idx..])
    ensures i == idx + FirstNull(strs[idx..])
  {
    i := idx;
    while strs[i].Str?
      invariant idx <= i <= idx + FirstNull(strs[idx..])
      decreases |strs| - i
    {
      assert strs[idx..][i - idx] == strs[i];
      i := i + 1;
    }
    assert strs[idx..][i - idx] == strs[i];
  }

  /** One group of MakePrims: the group's primitive, then the rest of the array. */
  lemma MakePrimsStep(strs: seq<CStr>, idx: nat)
    requires idx < |strs| && Parses(strs[idx..]) && strs[idx].Str?
    ensures HasNull(strs[idx..])
    ensures var f := idx + FirstNull(strs[idx..]);
      && f + 1 <= |strs| && Parses(strs[f + 1..])
      && PrimsOf(strs[idx..]) == [PrimitiveMemonly([], ReadOf(strs[idx..][..FirstNull(strs[idx..])]))] + PrimsOf(strs[f + 1..])
  {
    var f := idx + FirstNull(strs[idx..]);
    assert strs[idx..][FirstNull(strs[idx..]) + 1..] == strs[f + 1..];
  }

  /** The strings of one group. */
  function Strs(g: seq<string>): (r: seq<CStr>)
    ensures |r| == |g| && forall k :: 0 <= k < |g| ==> r[k] == Str(g[k])
  {
    seq(|g|, k requires 0 <= k < |g| => Str(g[k]))
  }

  /** The array a caller lays out for the given groups. */
  function Layout(groups: seq<seq<string>>): seq<CStr>
  {
    if groups == [] then [Null] else Strs(groups[0]) + [Null] + Layout(groups[1..])
  }

  /** The primitive a group of strings stands for. */
  function PrimOf(g: seq<string>): (p: PrimitiveMemonly)
    ensures p.write == [] && |p.read| == |g|
    ensures forall k :: 0 <= k < |g| ==> p.read[k] == Fragment(EmptyStamp, g[k])
  {
    PrimitiveMemonly([], seq(|g|, k requires 0 <= k < |g| => Fragment(EmptyStamp, g[k])))
  }

  /**
   * MakePrims reads back what was laid out: for non-empty groups it walks
   * the array within bounds and builds one primitive per group, holding
   * that group's strings in order.
   */
  lemma {:induction false} MakePrimsReadsLayout(groups: seq<seq<string>>)
    requires forall i :: 0 <= i < |groups| ==> groups[i] != []
    ensures Parses(Layout(groups))
    ensures |PrimsOf(Layout(groups))| == |groups|
    ensures forall i :: 0 <= i < |groups| ==> PrimsOf(Layout(groups))[i] == PrimOf(groups[i])
    decreases |groups|
  {
    if groups != [] {
      var g := groups[0];
      var a := Layout(groups);
      MakePrimsReadsLayout(groups[1..]);
      LayoutSplit(groups);
      ReadOfStrs(g);
      assert PrimsOf(a) == [PrimOf(g)] + PrimsOf(Layout(groups[1..]));
    }
  }

  /** The first group of a layout ends at the first null, and the rest is the layout of the other groups. */
  lemma LayoutSplit(groups: seq<seq<string>>)
    requires groups != [] && groups[0] != []
    ensures var a := Layout(groups);
      && a[0].Str? && HasNull(a) && FirstNull(a) == |groups[0]|
      && a[..|groups[0]|] == Strs(groups[0])
      && a[|groups[0]| + 1..] == Layout(groups[1..])
  {
    var g := groups[0];
    var a := Layout(groups);
    assert a == Strs(g) + [Null] + Layout(groups[1..]);
    FirstNullIs(a, |g|);
    assert a[..|g|] == Strs(g);
    assert a[|g| + 1..] == Layout(groups[1..]);
  }

  /** Reading the strings of a group gives the group's fragments. */
  lemma ReadOfStrs(g: seq<string>)
    ensures ReadOf(Strs(g)) == PrimOf(g).read
  {
  }

  /** What PrimitiveMemonly::ReadU leaves: the exception it throws, the primitive and the destination deque. */
  datatype ReadResult = ReadResult(end: NetExc, prim: PrimitiveMemonly, w: seq<Fragment>)

  /** PrimitiveMemonly::ReadU. */
  function ReadU(p: PrimitiveMemonly, w: seq<Fragment>): ReadResult
  {
    if p.read == [] then ReadResult(NetDisconnectExc, p, w)
    else ReadResult(NetBlockExc, p.(read := p.read[1..]), w + [p.read[0]])
  }

  /**
   * With nothing queued ReadU throws NetDisconnectExc and changes nothing;
   * otherwise it moves exactly the front fragment to the back of w, leaves
   * the written fragments alone and throws NetBlockExc. No fragment is
   * lost or reordered.
   */
  lemma ReadUMovesFront(p: PrimitiveMemonly, w: seq<Fragment>)
    ensures p.read == [] ==> ReadU(p, w) == ReadResult(NetDisconnectExc, p, w)
    ensures p.read != [] ==> ReadU(p, w).end == NetBlockExc && ReadU(p, w).prim.write == p.write
    ensures p.read != [] ==> |ReadU(p, w).w| == |w| + 1 && |ReadU(p, w).prim.read| == |p.read| - 1
    ensures ReadU(p, w).w + ReadU(p, w).prim.read == w + p.read
  {
  }

  /** How reading a memonly connection into an empty deque ends. */
  function MemOutcome(p: PrimitiveMemonly): ReadOutcome
  {
    var r := ReadU(p, []);
    ReadOutcome(r.w, r.end)
  }

  /**
   * The entries of a memonly round that visits toks in order. MessMemonly
   * polls nothing, so every connection counts as ready; the classification
   * is StageOne, the same as MessSock's.
   */
  ghost function MemStageAll(toks: seq<ConToken>, cons: map<ConToken, PrimitiveMemonly>): Staged
    requires forall i :: 0 <= i < |toks| ==> toks[i] in cons
  {
    if toks == [] then Staged([], [])
    else
      var n := |toks| - 1;
      StageOne(MemStageAll(toks[..n], cons), toks[n], true, MemOutcome(cons[toks[n]]))
  }

  /** Connection i of the round had something queued: it owes the read entry e, holding its front fragment. */
  ghost predicate MemReadFor(toks: seq<ConToken>, cons: map<ConToken, PrimitiveMemonly>, e: ReadEntry)
  {
    exists i :: 0 <= i < |toks| && toks[i] in cons && cons[toks[i]].read != [] && e == ReadEntry(toks[i], [cons[toks[i]].read[0]])
  }

  /** Connection i of the round had an empty queue: it owes the graceful disconnect e. */
  ghost predicate MemDiscFor(toks: seq<ConToken>, cons: map<ConToken, PrimitiveMemonly>, e: DiscEntry)
  {
    exists i :: 0 <= i < |toks| && toks[i] in cons && cons[toks[i]].read == [] && e == DiscEntry(toks[i], true)
  }

  /**
   * A memonly round stages one read entry, holding the front fragment, for
   * each visited connection with something queued, and nothing else.
   */
  lemma {:induction false} MemStageAllReads(toks: seq<ConToken>, cons: map<ConToken, PrimitiveMemonly>)
    requires forall i :: 0 <= i < |toks| ==> toks[i] in cons
    ensures forall e :: e in MemStageAll(toks, cons).r <==> MemReadFor(toks, cons, e)
    decreases |toks|
  {
    if toks != [] {
      var n := |toks| - 1;
      var t0 := toks[..n];
      MemStageAllReads(t0, cons);
      var s0 := MemStageAll(t0, cons);
      StageOneEntries(s0, toks[n], true, MemOutcome(cons[toks[n]]));
      forall e ensures e in MemStageAll(toks, cons).r <==> MemReadFor(toks, cons, e)
      {
        if e in s0.r {
          var i :| 0 <= i < |t0| && t0[i] in cons && cons[t0[i]].read != [] && e == ReadEntry(t0[i], [cons[t0[i]].read[0]]);
          assert t0[i] == toks[i];
        }
        if MemReadFor(toks, cons, e) {
          var i :| 0 <= i < |toks| && toks[i] in cons && cons[toks[i]].read != [] && e == ReadEntry(toks[i], [cons[toks[i]].read[0]]);
          if i < n {
            assert t0[i] == toks[i];
            assert MemReadFor(t0, cons, e);
          }
        }
      }
    }
  }

  /**
   * A memonly round stages a graceful disconnect for each visited
   * connection with an empty queue, and nothing else.
   */
  lemma {:induction false} MemStageAllDiscs(toks: seq<ConToken>, cons: map<ConToken, PrimitiveMemonly>)
    requires forall i :: 0 <= i < |toks| ==> toks[i] in cons
    ensures forall e :: e in MemStageAll(toks, cons).d <==> MemDiscFor(toks, cons, e)
    decreases |toks|
  {
    if toks != [] {
      var n := |toks| - 1;
      var t0 := toks[..n];
      MemStageAllDiscs(t0, cons);
      var s0 := MemStageAll(t0, cons);
      StageOneEntries(s0, toks[n], true, MemOutcome(cons[toks[n]]));
      forall e ensures e in MemStageAll(toks, cons).d <==> MemDiscFor(toks, cons, e)
      {
        if e in s0.d {
          var i :| 0 <= i < |t0| && t0[i] in cons && cons[t0[i]].read == [] && e == DiscEntry(t0[i], true);
          assert t0[i] == toks[i];
        }
        if MemDiscFor(toks, cons, e) {
          var i :| 0 <= i < |toks| && toks[i] in cons && cons[toks[i]].read == [] && e == DiscEntry(toks[i], true);
          if i < n {
            assert t0[i] == toks[i];
            assert MemDiscFor(t0, cons, e);
          }
        }
      }
    }
  }

  /** A memonly round over tokens below b stages only tokens below b. */
  lemma {:induction false} MemStageAllBelow(toks: seq<ConToken>, cons: map<ConToken, PrimitiveMemonly>, b: ConToken)
    requires forall i :: 0 <= i < |toks| ==> toks[i] in cons
    requires forall i :: 0 <= i < |toks| ==> toks[i] < b
    ensures AllBelow(MemStageAll(toks, cons), b)
    decreases |toks|
  {
    if toks != [] {
      var n := |toks| - 1;
      MemStageAllBelow(toks[..n], cons, b);
    }
  }

  /** Visiting memonly connections in ascending token order stages the entries in ascending token order. */
  lemma {:induction false} MemStageAllOrdered(toks: seq<ConToken>, cons: map<ConToken, PrimitiveMemonly>)
    requires forall i :: 0 <= i < |toks| ==> toks[i] in cons
    requires forall i, j :: 0 <= i < j < |toks| ==> toks[i] < toks[j]
    ensures Ascending(MemStageAll(toks, cons))
    decreases |toks|
  {
    if toks != [] {
      var n := |toks| - 1;
      MemStageAllOrdered(toks[..n], cons);
      MemStageAllBelow(toks[..n], cons, toks[n]);
      StageOneAscending(MemStageAll(toks[..n], cons), toks[n], true, MemOutcome(cons[toks[n]]));
    }
  }

  /** The table after every connection was read once. */
  ghost function ReadAll(cons: map<ConToken, PrimitiveMemonly>): map<ConToken, PrimitiveMemonly>
  {
    map t | t in cons :: ReadU(cons[t], []).prim
  }

  /**
   * A memonly round stages exactly one read entry per connection that
   * still had a message (that message), and nothing else.
   */
  lemma MemonlyRoundReads(cons: map<ConToken, PrimitiveMemonly>)
    ensures var s := MemStageAll(SortedKeys(cons.Keys), cons);
      forall e :: e in s.r <==> exists t :: t in cons && cons[t].read != [] && e == ReadEntry(t, [cons[t].read[0]])
  {
    var keys := SortedKeys(cons.Keys);
    SortedKeysSpec(cons.Keys);
    MemStageAllReads(keys, cons);
    forall e ensures MemReadFor(keys, cons, e) <==> exists t :: t in cons && cons[t].read != [] && e == ReadEntry(t, [cons[t].read[0]])
    {
      if exists t :: t in cons && cons[t].read != [] && e == ReadEntry(t, [cons[t].read[0]]) {
        var t :| t in cons && cons[t].read != [] && e == ReadEntry(t, [cons[t].read[0]]);
        var i :| 0 <= i < |keys| && keys[i] == t;
      }
    }
  }

  /**
   * A memonly round stages exactly one graceful disconnect per connection
   * whose messages had run out, and nothing else.
   */
  lemma MemonlyRoundDiscs(cons: map<ConToken, PrimitiveMemonly>)
    ensures var s := MemStageAll(SortedKeys(cons.Keys), cons);
      forall e :: e in s.d <==> exists t :: t in cons && cons[t].read == [] && e == DiscEntry(t, true)
  {
    var keys := SortedKeys(cons.Keys);
    SortedKeysSpec(cons.Keys);
    MemStageAllDiscs(keys, cons);
    forall e ensures MemDiscFor(keys, cons, e) <==> exists t :: t in cons && cons[t].read == [] && e == DiscEntry(t, true)
    {
      if exists t :: t in cons && cons[t].read == [] && e == DiscEntry(t, true) {
        var t :| t in cons && cons[t].read == [] && e == DiscEntry(t, true);
        var i :| 0 <= i < |keys| && keys[i] == t;
      }
    }
  }

  /** A memonly round stages in ascending token order, and pops each connection's front message. */
  lemma MemonlyRoundOrder(cons: map<ConToken, PrimitiveMemonly>)
    ensures Ascending(MemStageAll(SortedKeys(cons.Keys), cons))
    ensures ReadAll(cons).Keys == cons.Keys
    ensures forall t :: t in cons ==> ReadAll(cons)[t].read == if cons[t].read == [] then [] else cons[t].read[1..]
  {
    SortedKeysSpec(cons.Keys);
    MemStageAllOrdered(SortedKeys(cons.Keys), cons);
  }

  /** The table part-way through a round: the connections not yet visited are untouched. */
  ghost function PartlyRead(start: map<ConToken, PrimitiveMemonly>, remaining: set<ConToken>): map<ConToken, PrimitiveMemonly>
  {
    map u | u in start :: if u in remaining then start[u] else ReadU(start[u], []).prim
  }

  /** Reading one more connection. */
  lemma PartlyReadStep(start: map<ConToken, PrimitiveMemonly>, remaining: set<ConToken>, t: ConToken)
    requires t in remaining && t in start
    ensures t in PartlyRead(start, remaining) && PartlyRead(start, remaining)[t] == start[t]
    ensures PartlyRead(start, remaining)[t := ReadU(start[t], []).prim] == PartlyRead(start, remaining - {t})
  {
    assert PartlyRead(start, remaining)[t := ReadU(start[t], []).prim].Keys == PartlyRead(start, remaining - {t}).Keys;
  }

  /** What holds part-way through a memonly round: done visited in order, the rest untouched. */
  ghost predicate RoundSoFar(start: map<ConToken, PrimitiveMemonly>, remaining: set<ConToken>, done: seq<ConToken>,
                             table: map<ConToken, PrimitiveMemonly>, st: Staged)
  {
    && remaining <= start.Keys
    && table == PartlyRead(start, remaining)
    && SortedKeys(start.Keys) == done + SortedKeys(remaining)
    && |done| + |remaining| == |start.Keys|
    && (forall i :: 0 <= i < |done| ==> done[i] in start)
    && st == MemStageAll(done, start)
  }

  /** Reading the smallest remaining connection keeps RoundSoFar. */
  lemma RoundStep(start: map<ConToken, PrimitiveMemonly>, remaining: set<ConToken>, done: seq<ConToken>,
                  table: map<ConToken, PrimitiveMemonly>, st: Staged, t: ConToken)
    requires RoundSoFar(start, remaining, done, table, st)
    requires t in remaining && IsMin(t, remaining)
    ensures t in table && table[t] == start[t]
    ensures RoundSoFar(start, remaining - {t}, done + [t], table[t := ReadU(table[t], []).prim],
                       StageOne(st, t, true, MemOutcome(table[t])))
  {
    SortedKeysAdvance(start.Keys, done, t, remaining);
    PartlyReadStep(start, remaining, t);
    assert (done + [t])[..|done|] == done;
  }

  /** At the end of a round every connection was read once, in ascending order. */
  lemma RoundEnd(start: map<ConToken, PrimitiveMemonly>, done: seq<ConToken>, table: map<ConToken, PrimitiveMemonly>, st: Staged)
    requires RoundSoFar(start, {}, done, table, st)
    ensures table == ReadAll(start)
    ensures st == MemStageAll(SortedKeys(start.Keys), start)
  {
    assert SortedKeys({}) == [] && done + [] == done;
    assert PartlyRead(start, {}) == ReadAll(start);
  }

  /**
   * The loop of MessMemonly::StagedRead over the table: read every
   * connection once, in ascending token order, updating its entry in
   * place, and classify each read like MessSock does.
   */
  method ReadRound(start: map<ConToken, PrimitiveMemonly>) returns (table: map<ConToken, PrimitiveMemonly>, s: Staged)
    ensures table == ReadAll(start)
    ensures s == MemStageAll(SortedKeys(start.Keys), start)
  {
    table := start;
    var remaining := start.Keys;
    var rs: seq<ReadEntry> := [];
    var ds: seq<DiscEntry> := [];
    ghost var done: seq<ConToken> := [];
    while remaining != {}
      invariant RoundSoFar(start, remaining, done, table, Staged(rs, ds))
      decreases |remaining|
    {
      MinExists(remaining);
      var t :| t in remaining && IsMin(t, remaining);
      RoundStep(start, remaining, done, table, Staged(rs, ds), t);
      var r := ReadU(table[t], []);
      rs, ds := StageConnection(rs, ds, t, true, ReadOutcome(r.w, r.end));
      table := table[t := r.prim];
      done := done + [t];
      remaining := remaining - {t};
    }
    RoundEnd(start, done, table, Staged(rs, ds));
    s := Staged(rs, ds);
  }

  /** NetStuff::MessMemonly: a connection table over in-memory primitives. */
  /**
   * The table after inserting mems, one by one, under the smallest free
   * token each, stopping when the tokens run out.
   */
  ghost function Inserted(cons: map<ConToken, PrimitiveMemonly>, free: set<ConToken>, mems: seq<PrimitiveMemonly>): map<ConToken, PrimitiveMemonly>
    decreases |mems|
  {
    if mems == [] || free == {} then cons
    else Inserted(cons[Min(free) := mems[0]], free - {Min(free)}, mems[1..])
  }

  /** The smaller of the number of primitives and the number of free tokens: how many get inserted. */
  function Fits(mems: seq<PrimitiveMemonly>, free: set<ConToken>): nat
  {
    if |mems| <= |free| then |mems| else |free|
  }

  /** Unfolding Issue once at the smallest free token. */
  lemma IssueFirst(free: set<ConToken>, k: nat)
    requires free != {} && 0 < k
    ensures Min(free) in free && |free - {Min(free)}| == |free| - 1
    ensures Issue(free, k) == [Min(free)] + Issue(free - {Min(free)}, k - 1)
  {
    MinExists(free);
  }

  /** Entries already in the table keep their value through an insertion run under fresh tokens. */
  lemma {:induction false} InsertedKeepsOld(cons: map<ConToken, PrimitiveMemonly>, free: set<ConToken>, mems: seq<PrimitiveMemonly>)
    requires cons.Keys !! free
    ensures forall t :: t in cons ==> t in Inserted(cons, free, mems) && Inserted(cons, free, mems)[t] == cons[t]
    decreases |mems|
  {
    if mems != [] && free != {} {
      MinExists(free);
      InsertedKeepsOld(cons[Min(free) := mems[0]], free - {Min(free)}, mems[1..]);
    }
  }

  /** An insertion run adds exactly the tokens the generator hands out, one per inserted primitive. */
  lemma {:induction false} InsertedKeys(cons: map<ConToken, PrimitiveMemonly>, free: set<ConToken>, mems: seq<PrimitiveMemonly>)
    requires cons.Keys !! free
    ensures |Issue(free, Fits(mems, free))| == Fits(mems, free)
    ensures forall t :: t in Inserted(cons, free, mems) <==> t in cons || t in Issue(free, Fits(mems, free))
    decreases |mems|
  {
    if mems != [] && free != {} {
      IssueFirst(free, Fits(mems, free));
      InsertedKeys(cons[Min(free) := mems[0]], free - {Min(free)}, mems[1..]);
    }
  }

  /** The i-th handed-out token carries the i-th primitive. */
  lemma {:induction false} InsertedValues(cons: map<ConToken, PrimitiveMemonly>, free: set<ConToken>, mems: seq<PrimitiveMemonly>)
    requires cons.Keys !! free
    ensures var ts := Issue(free, Fits(mems, free));
      |ts| == Fits(mems, free) && forall i :: 0 <= i < |ts| ==> ts[i] in Inserted(cons, free, mems) && Inserted(cons, free, mems)[ts[i]] == mems[i]
    decreases |mems|
  {
    if mems != [] && free != {} {
      var m := Min(free);
      IssueFirst(free, Fits(mems, free));
      var cons' := cons[m := mems[0]];
      InsertedValues(cons', free - {m}, mems[1..]);
      InsertedKeepsOld(cons', free - {m}, mems[1..]);
    }
  }

  class MessMemonly {
    var tokenGen: ConTokenGen
    var cons: map<ConToken, PrimitiveMemonly>
    var numCons: int

    /** Tokens in use are never free. */
    ghost predicate Valid()
      reads this, tokenGen
    {
      cons.Keys !! tokenGen.toks
    }

    constructor ()
      ensures Valid() && fresh(tokenGen)
      ensures cons == map[] && numCons == 0 && tokenGen.toks == Ids(0, MaxTokens)
    {
      tokenGen := new ConTokenGen();
      cons := map[];
      numCons := 0;
    }

    /**
     * MessMemonly::AcceptedConsMulti: insert each primitive under the next
     * token. When the generator runs out, the exception leaves the entries
     * inserted so far in place and numCons stale (ok == false).
     */
    method AcceptedConsMulti(mems: seq<PrimitiveMemonly>) returns (ok: bool)
      requires Valid()
      modifies this, tokenGen
      ensures Valid() && tokenGen == old(tokenGen)
      ensures ok <==> |mems| <= |old(tokenGen.toks)|
      ensures cons == Inserted(old(cons), old(tokenGen.toks), mems)
      ensures tokenGen.toks == Remaining(old(tokenGen.toks), if ok then |mems| else |old(tokenGen.toks)|)
      ensures numCons == if ok then |cons| else old(numCons)
    {
      ghost var free := tokenGen.toks;
      var i := 0;
      while i < |mems|
        invariant tokenGen == old(tokenGen) && numCons == old(numCons)
        invariant i <= |mems| && i <= |free|
        invariant tokenGen.toks == Remaining(free, i) && |tokenGen.toks| == |free| - i
        invariant cons.Keys !! tokenGen.toks
        invariant Inserted(cons, tokenGen.toks, mems[i..]) == Inserted(old(cons), free, mems)
      {
        IssueSnoc(free, i);
        var t := tokenGen.GetToken();
        if t.None? {
          return false;
        }
        if t.value in cons {
          assert false;
        }
        assert mems[i..][1..] == mems[i + 1..];
        cons := cons[t.value := mems[i]];
        i := i + 1;
      }
      numCons := |cons|;
      ok := true;
    }

    /**
     * MessMemonly::StagedRead: read every connection once, in ascending
     * token order, and classify each read like MessSock does.
     */
    method StagedRead() returns (s: Staged)
      modifies this
      ensures tokenGen == old(tokenGen) && numCons == old(numCons)
      ensures cons == ReadAll(old(cons))
      ensures s == MemStageAll(SortedKeys(old(cons).Keys), old(cons))
    {
      cons, s := ReadRound(cons);
    }
  }
}
