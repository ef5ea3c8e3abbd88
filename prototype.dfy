/**
 * The in-memory transfer prototype: primitives that move fragment queues,
 * a managed wrapper that pairs a primitive with an in and an out queue,
 * and a group that polls its members and transfers the ready ones.
 */
module Prototype {
  import opened Fragments

  /** The poll value that marks a primitive with no socket behind it. */
  const PollValDummy: int := -1

  /** What the poll call returns on failure. */
  const SocketError: int := -1

  predicate IsDummy(fd: int)
  {
    fd == PollValDummy
  }

  /**
   * A primitive: a memory-only one keeps a write queue and a read queue;
   * a zombie blocks on every read and write. Both keep the default,
   * dummy poll value.
   */
  class Primitive {
    const zombie: bool
    const pollFd: int
    var write: seq<Fragment>
    var read: seq<Fragment>

    constructor Memonly()
      ensures !zombie && IsDummy(pollFd) && write == [] && read == []
    {
      zombie := false;
      pollFd := PollValDummy;
      write := [];
      read := [];
    }

    constructor Zombie()
      ensures zombie && IsDummy(pollFd) && write == [] && read == []
    {
      zombie := true;
      pollFd := PollValDummy;
      write := [];
      read := [];
    }

    /**
     * Hands w over to the write queue: nothing is lost and the order is
     * kept; a zombie blocks and changes nothing.
     */
    method WriteU(w: FragBuf) returns (blocked: bool)
      modifies this, w
      ensures blocked == zombie
      ensures read == old(read)
      ensures write + w.frags == old(write + w.frags)
      ensures !zombie ==> w.frags == []
      ensures zombie ==> write == old(write) && w.frags == old(w.frags)
    {
      if zombie {
        return true;
      }
      write := write + w.frags;
      w.frags := [];
      blocked := false;
    }

    /**
     * Moves at most one fragment from the read queue to the back of w:
     * exactly one when the queue is not empty, none otherwise; a zombie
     * blocks and changes nothing.
     */
    method ReadU(w: FragBuf) returns (blocked: bool)
      modifies this, w
      ensures blocked == zombie
      ensures write == old(write)
      ensures w.frags + read == old(w.frags + read)
      ensures zombie || old(read) == [] ==> read == old(read) && w.frags == old(w.frags)
      ensures !zombie && old(read) != [] ==>
        read == old(read)[1..] && w.frags == old(w.frags) + [old(read)[0]]
    {
      if zombie {
        return true;
      }
      blocked := false;
      if read == [] {
        return;
      }
      w.frags := w.frags + [read[0]];
      read := read[1..];
    }
  }

  /** One member of a group, as values: its primitive's queues and its own. */
  datatype Member = Member(zombie: bool, read: seq<Fragment>, write: seq<Fragment>, inq: seq<Fragment>, outq: seq<Fragment>)

  /** The effect of one transfer of a member. */
  function Step(s: Member): (r: Member)
    ensures r.zombie == s.zombie
    ensures s.zombie ==> r == s
    ensures !s.zombie ==> r.inq + r.read == s.inq + s.read && r.write == s.write + s.outq && r.outq == []
    ensures !s.zombie ==> |r.read| == if s.read == [] then 0 else |s.read| - 1
  {
    if s.zombie then s
    else if s.read == [] then s.(write := s.write + s.outq, outq := [])
    else Member(false, s.read[1..], s.write + s.outq, s.inq + [s.read[0]], [])
  }

  /** n transfers of one member. */
  function Steps(s: Member, n: nat): Member
    decreases n
  {
    if n == 0 then s else Steps(Step(s), n - 1)
  }

  /**
   * Enough transfers of a memory-only member drain its read queue into
   * its in queue, in order, and its out queue into its write queue.
   */
  lemma {:induction false} Drain(s: Member, n: nat)
    requires !s.zombie && |s.read| <= n && (n > 0 || s.outq == [])
    ensures var r := Steps(s, n);
      && r.inq == s.inq + s.read && r.read == []
      && r.write == s.write + s.outq && r.outq == []
      && !r.zombie
    decreases n
  {
    if n > 0 {
      var t := Step(s);
      if s.read != [] {
        Drain(t, n - 1);
        assert t.read == s.read[1..];
      } else {
        Idle(t, n - 1);
      }
    }
  }

  /** A member with nothing to move stays as it is. */
  lemma {:induction false} Idle(s: Member, n: nat)
    requires !s.zombie && s.read == [] && s.outq == []
    ensures Steps(s, n) == s
    decreases n
  {
    if n > 0 {
      assert Step(s) == s;
      Idle(s, n - 1);
    }
  }

  /** A zombie member never changes, however often it is transferred. */
  lemma {:induction false} ZombieStays(s: Member, n: nat)
    requires s.zombie
    ensures Steps(s, n) == s
    decreases n
  {
    if n > 0 {
      ZombieStays(Step(s), n - 1);
    }
  }

  /** A primitive with its in and out queues. */
  class Managed {
    const prim: Primitive
    const inBuf: FragBuf
    const outBuf: FragBuf

    constructor (prim: Primitive)
      ensures this.prim == prim && fresh(inBuf) && fresh(outBuf) && Valid()
      ensures inBuf.frags == [] && outBuf.frags == []
    {
      this.prim := prim;
      inBuf := new FragBuf([]);
      outBuf := new FragBuf([]);
    }

    ghost predicate Valid()
    {
      inBuf != outBuf
    }

    ghost function State(): Member
      reads prim, inBuf, outBuf
    {
      Member(prim.zombie, prim.read, prim.write, inBuf.frags, outBuf.frags)
    }

    /** Reads into the in queue, then writes from the out queue; blocks are ignored. */
    method Transfer()
      requires Valid()
      modifies prim, inBuf, outBuf
      ensures State() == Step(old(State()))
    {
      var readBlocked := prim.ReadU(inBuf);
      var writeBlocked := prim.WriteU(outBuf);
    }
  }

  /** What the poll call answers: its count and, per entry, whether it is ready. */
  datatype Poll = Poll(count: int, ready: seq<bool>)

  datatype Outcome = Transferred | NetFailure

  predicate AllDummy(fds: seq<int>)
  {
    forall i :: 0 <= i < |fds| ==> IsDummy(fds[i])
  }

  /** The count the group acts on: 1 without asking the poll when every entry is a dummy. */
  function PollCount(fds: seq<int>, poll: Poll): int
  {
    if AllDummy(fds) then 1 else poll.count
  }

  /** Whether member i is transferred by one group transfer. */
  predicate Picked(fds: seq<int>, poll: Poll, i: nat)
    requires i < |fds| && |poll.ready| == |fds|
  {
    PollCount(fds, poll) > 0 && (IsDummy(fds[i]) || poll.ready[i])
  }

  /** Members that share no primitive and no queue. */
  class ManagedGroup {
    var m: seq<Managed>

    constructor (m: seq<Managed>)
      ensures this.m == m
    {
      this.m := m;
    }

    ghost function Footprint(): set<object>
      reads this
    {
      (set i | 0 <= i < |m| :: m[i].prim)
      + (set i | 0 <= i < |m| :: m[i].inBuf)
      + (set i | 0 <= i < |m| :: m[i].outBuf)
    }

    ghost predicate Valid()
      reads this
    {
      && (forall i :: 0 <= i < |m| ==> m[i].Valid())
      && (forall i, j :: 0 <= i < |m| && 0 <= j < |m| && i != j ==>
            && m[i].prim != m[j].prim
            && m[i].inBuf != m[j].inBuf
            && m[i].outBuf != m[j].outBuf
            && m[i].inBuf != m[j].outBuf)
    }

    /** The poll value of every member's primitive. */
    function Fds(): (fds: seq<int>)
      reads this
      ensures |fds| == |m|
      ensures forall i :: 0 <= i < |m| ==> fds[i] == m[i].prim.pollFd
    {
      var ms := m;
      seq(|ms|, i requires 0 <= i < |ms| => ms[i].prim.pollFd)
    }

    /** Transfers every member once, in order. */
    method TransferAll()
      requires Valid()
      modifies Footprint()
      ensures forall i :: 0 <= i < |m| ==> m[i].State() == Step(old(m[i].State()))
    {
      for i := 0 to |m|
        invariant forall j :: 0 <= j < i ==> m[j].State() == Step(old(m[j].State()))
        invariant forall j :: i <= j < |m| ==> m[j].State() == old(m[j].State())
      {
        TransferAt(i);
      }
    }

    /** The poll value of every member, gathered into a fresh array. */
    method PollValues() returns (pfd: array<int>)
      ensures fresh(pfd) && pfd[..] == Fds()
    {
      pfd := new int[|m|];
      for i := 0 to |m|
        invariant forall j :: 0 <= j < i ==> pfd[j] == m[j].prim.pollFd
      {
        pfd[i] := m[i].prim.pollFd;
      }
    }

    /**
     * One group transfer. With every poll value the dummy, no poll is
     * issued and every member is transferred once; otherwise a failed poll
     * changes nothing, and a positive count transfers exactly the dummy
     * and the ready members.
     */
    method Transfer(poll: Poll) returns (r: Outcome)
      requires Valid() && |poll.ready| == |m|
      modifies Footprint()
      ensures r == NetFailure <==> PollCount(Fds(), poll) == SocketError
      ensures forall i :: 0 <= i < |m| ==>
        m[i].State() == if Picked(Fds(), poll, i) then Step(old(m[i].State())) else old(m[i].State())
      ensures AllDummy(Fds()) ==>
        r == Transferred && forall i :: 0 <= i < |m| ==> m[i].State() == Step(old(m[i].State()))
    {
      var pfd := PollValues();
      var allDummy := ScanDummy(pfd);
      var count := if allDummy then 1 else poll.count;
      if count == SocketError {
        return NetFailure;
      }
      if count > 0 {
        TransferPicked(pfd, poll);
      }
      r := Transferred;
    }

    /** Transfers, in order, every member whose entry is a dummy or ready. */
    method TransferPicked(pfd: array<int>, poll: Poll)
      requires Valid() && |poll.ready| == |m| && pfd[..] == Fds() && PollCount(Fds(), poll) > 0
      modifies Footprint()
      ensures forall i :: 0 <= i < |m| ==>
        m[i].State() == if Picked(Fds(), poll, i) then Step(old(m[i].State())) else old(m[i].State())
    {
      ghost var fds := pfd[..];
      for i := 0 to |m|
        invariant forall j :: 0 <= j < i ==>
          m[j].State() == if Picked(fds, poll, j) then Step(old(m[j].State())) else old(m[j].State())
        invariant forall j :: i <= j < |m| ==> m[j].State() == old(m[j].State())
      {
        assert pfd[i] == fds[i];
        if IsDummy(pfd[i]) || poll.ready[i] {
          TransferAt(i);
        }
      }
    }

    /** Transfers member i; the other members share nothing with it and stay as they are. */
    method TransferAt(i: nat)
      requires Valid() && i < |m|
      modifies m[i].prim, m[i].inBuf, m[i].outBuf
      ensures m[i].State() == Step(old(m[i].State()))
      ensures forall j :: 0 <= j < |m| && j != i ==> m[j].State() == old(m[j].State())
    {
      m[i].Transfer();
    }
  }

  /** Whether every entry of pfd is the dummy value. */
  method ScanDummy(pfd: array<int>) returns (allDummy: bool)
    ensures allDummy == AllDummy(pfd[..])
  {
    allDummy := true;
    for i := 0 to pfd.Length
      invariant allDummy <==> AllDummy(pfd[..i])
    {
      assert pfd[..i + 1] == pfd[..i] + [pfd[i]];
      if !IsDummy(pfd[i]) {
        allDummy := false;
      }
    }
    assert pfd[..pfd.Length] == pfd[..];
  }

  /**
   * The prototype's scenario: a memory-only primitive whose read queue
   * holds five fragments and a zombie, grouped and transferred five
   * times. The memory-only member's in queue ends with the five fragments
   * in order, its read queue is empty, and the zombie's queues stay empty.
   */
  method Scenario(pushed: seq<Fragment>) returns (inFrags: seq<Fragment>, left: seq<Fragment>, zombieIn: seq<Fragment>)
    requires |pushed| == 5
    ensures inFrags == pushed && left == [] && zombieIn == []
  {
    var g, mm, mz := MakeGroup(pushed);
    ghost var s0 := mm.State();
    ghost var z0 := mz.State();
    for k := 0 to 5
      invariant g.m == [mm, mz] && g.Valid() && AllDummy(g.Fds())
      invariant mm.State() == Steps(s0, k) && mz.State() == Steps(z0, k)
    {
      GroupRound(g, mm, mz);
      StepsSnoc(s0, k);
      StepsSnoc(z0, k);
    }
    Drain(s0, 5);
    ZombieStays(z0, 5);
    inFrags := mm.inBuf.frags;
    left := mm.prim.read;
    zombieIn := mz.inBuf.frags;
  }

  /** One transfer of the scenario's two-member group. */
  method GroupRound(g: ManagedGroup, mm: Managed, mz: Managed)
    requires g.m == [mm, mz] && g.Valid() && AllDummy(g.Fds())
    modifies g.Footprint()
    ensures mm.State() == Step(old(mm.State())) && mz.State() == Step(old(mz.State()))
  {
    var r := g.Transfer(Poll(0, [false, false]));
    assert g.m[0] == mm && g.m[1] == mz;
  }

  /**
   * The scenario's group: a memory-only member whose read queue is filled
   * one fragment at a time, then a zombie member.
   */
  method MakeGroup(pushed: seq<Fragment>) returns (g: ManagedGroup, mm: Managed, mz: Managed)
    ensures fresh(g) && fresh(g.Footprint()) && g.m == [mm, mz] && g.Valid() && AllDummy(g.Fds())
    ensures mm.State() == Member(false, pushed, [], [], [])
    ensures mz.State() == Member(true, [], [], [], [])
  {
    var w1 := new Primitive.Memonly();
    for i := 0 to |pushed|
      invariant w1.read == pushed[..i] && w1.write == []
    {
      w1.read := w1.read + [pushed[i]];
    }
    assert pushed[..|pushed|] == pushed;
    mm := new Managed(w1);
    var wz := new Primitive.Zombie();
    mz := new Managed(wz);
    g := new ManagedGroup([mm, mz]);
  }

  /** One more transfer after n. */
  lemma {:induction false} StepsSnoc(s: Member, n: nat)
    ensures Steps(s, n + 1) == Step(Steps(s, n))
    decreases n
  {
    if n > 0 {
      StepsSnoc(Step(s), n - 1);
    }
  }
}
