/**
 * Connection tokens (ConToken, ConTokenLess) and the token generator
 * ConTokenGen: a set of free ids that always hands out the smallest one.
 */
module Tokens {
  import opened Wrappers

  /** ConToken wraps a uint32_t id; ConTokenLess orders tokens by id. */
  newtype ConToken = id: int | 0 <= id < 0x1_0000_0000

  /** ConTokenLess::operator(). */
  predicate ConTokenLess(lhs: ConToken, rhs: ConToken)
  {
    lhs < rhs
  }

  /** The capacity ConTokenGen is built with (maxTokens). */
  const MaxTokens: int := 100

  /** The ids lo .. n-1. */
  ghost function Ids(lo: int, n: int): (r: set<ConToken>)
    requires 0 <= lo
    requires n <= MaxTokens
    ensures forall t :: t in r <==> lo <= t as int < n
    decreases n - lo
  {
    if lo >= n then {} else {lo as ConToken} + Ids(lo + 1, n)
  }

  /** m is at most every element of s. */
  predicate IsMin(m: ConToken, s: set<ConToken>)
  {
    forall x :: x in s ==> m <= x
  }

  lemma {:induction false} MinExists(s: set<ConToken>)
    requires s != {}
    ensures exists m :: m in s && IsMin(m, s)
    decreases |s|
  {
    var y :| y in s;
    var s' := s - {y};
    if s' == {} {
      assert s == {y};
      assert IsMin(y, s);
    } else {
      MinExists(s');
      var m' :| m' in s' && IsMin(m', s');
      var best := if y < m' then y else m';
      forall x | x in s
        ensures best <= x
      {
        if x != y {
          assert x in s';
        }
      }
      assert best in s && IsMin(best, s);
    }
  }

  /** The smallest token of a non-empty set: what std::set::begin() points at. */
  ghost function Min(s: set<ConToken>): (m: ConToken)
    requires s != {}
    ensures m in s && forall x :: x in s ==> m <= x
  {
    MinExists(s);
    var m :| m in s && IsMin(m, s); m
  }

  /** The tokens of a set in ascending order: the iteration order of a std::map keyed by ConTokenLess. */
  ghost function SortedKeys(s: set<ConToken>): (r: seq<ConToken>)
    ensures |r| == |s|
    ensures forall i :: 0 <= i < |r| ==> r[i] in s
    decreases |s|
  {
    if s == {} then [] else [Min(s)] + SortedKeys(s - {Min(s)})
  }

  lemma {:induction false} SortedKeysSpec(s: set<ConToken>)
    ensures forall t :: t in s <==> t in SortedKeys(s)
    ensures forall i, j :: 0 <= i < j < |SortedKeys(s)| ==> SortedKeys(s)[i] < SortedKeys(s)[j]
    decreases |s|
  {
    if s != {} {
      var m := Min(s);
      SortedKeysSpec(s - {m});
      var rest := SortedKeys(s - {m});
      assert SortedKeys(s) == [m] + rest;
      forall i, j | 0 <= i < j < |SortedKeys(s)|
        ensures SortedKeys(s)[i] < SortedKeys(s)[j]
      {
        if i > 0 {
          assert SortedKeys(s)[i] == rest[i - 1];
        } else {
          assert SortedKeys(s)[j] == rest[j - 1];
          assert rest[j - 1] in s - {m};
        }
      }
    }
  }

  /** The smallest token of a set starting at lo is lo itself. */
  lemma LowestId(lo: int, n: int)
    requires 0 <= lo < n <= MaxTokens
    ensures Ids(lo, n) != {} && Min(Ids(lo, n)) == lo as ConToken
    ensures Ids(lo, n) - {lo as ConToken} == Ids(lo + 1, n)
  {
    assert lo as ConToken in Ids(lo, n);
  }

  /** The tokens n consecutive GetToken calls hand out from a set of free tokens, without returns in between. */
  ghost function Issue(free: set<ConToken>, n: nat): seq<ConToken>
    decreases n
  {
    if n == 0 || free == {} then [] else [Min(free)] + Issue(free - {Min(free)}, n - 1)
  }

  /** The free set left after n consecutive GetToken calls. */
  ghost function Remaining(free: set<ConToken>, n: nat): set<ConToken>
    decreases n
  {
    if n == 0 || free == {} then free else Remaining(free - {Min(free)}, n - 1)
  }

  /** A token that is at most every element of its set is the set's Min. */
  lemma MinUnique(m: ConToken, s: set<ConToken>)
    requires m in s && IsMin(m, s)
    ensures s != {} && m == Min(s)
  {
  }

  /** One more GetToken hands out the Min of what is left, and removes it. */
  lemma {:induction false} IssueSnoc(free: set<ConToken>, n: nat)
    ensures Remaining(free, n) != {} ==>
      && Issue(free, n + 1) == Issue(free, n) + [Min(Remaining(free, n))]
      && Remaining(free, n + 1) == Remaining(free, n) - {Min(Remaining(free, n))}
    ensures Remaining(free, n) == {} ==> Issue(free, n + 1) == Issue(free, n) && Remaining(free, n + 1) == {}
    decreases n
  {
    if n != 0 && free != {} {
      IssueSnoc(free - {Min(free)}, n - 1);
    }
  }

  /** The handed-out tokens and the remaining free set split the original free set, and the count adds up. */
  lemma {:induction false} IssueRemaining(free: set<ConToken>, n: nat)
    ensures forall t :: t in free <==> t in Remaining(free, n) || t in Issue(free, n)
    ensures forall t :: t in Issue(free, n) ==> t !in Remaining(free, n)
    ensures |Remaining(free, n)| == if n <= |free| then |free| - n else 0
    decreases n
  {
    if n != 0 && free != {} {
      var m := Min(free);
      IssueRemaining(free - {m}, n - 1);
      assert Issue(free, n) == [m] + Issue(free - {m}, n - 1);
      assert Remaining(free, n) == Remaining(free - {m}, n - 1);
      assert |free - {m}| == |free| - 1;
    }
  }

  /** Tokens obtained without an intervening return are pairwise distinct, ascending, and were free. */
  lemma {:induction false} IssueDistinct(free: set<ConToken>, n: nat)
    ensures forall t :: t in Issue(free, n) ==> t in free
    ensures forall i, j :: 0 <= i < j < |Issue(free, n)| ==> Issue(free, n)[i] < Issue(free, n)[j]
    ensures |Issue(free, n)| == if n <= |free| then n else |free|
    decreases n
  {
    if n != 0 && free != {} {
      var m := Min(free);
      var rest := Issue(free - {m}, n - 1);
      IssueDistinct(free - {m}, n - 1);
      assert Issue(free, n) == [m] + rest;
      assert |free - {m}| == |free| - 1;
      forall i, j | 0 <= i < j < |Issue(free, n)|
        ensures Issue(free, n)[i] < Issue(free, n)[j]
      {
        assert Issue(free, n)[j] == rest[j - 1];
        if i > 0 {
          assert Issue(free, n)[i] == rest[i - 1];
        } else {
          assert rest[j - 1] in free - {m};
        }
      }
    }
  }

  /** A fresh generator hands out 0, 1, 2, ... in order. */
  lemma {:induction false} FreshIssueInOrder(lo: int, n: nat)
    requires 0 <= lo && lo + n <= MaxTokens
    ensures |Issue(Ids(lo, MaxTokens), n)| == n
    ensures forall i :: 0 <= i < n ==> Issue(Ids(lo, MaxTokens), n)[i] == (lo + i) as ConToken
    decreases n
  {
    if n != 0 {
      LowestId(lo, MaxTokens);
      FreshIssueInOrder(lo + 1, n - 1);
      var rest := Issue(Ids(lo + 1, MaxTokens), n - 1);
      assert Issue(Ids(lo, MaxTokens), n) == [lo as ConToken] + rest;
    }
  }

  /** NetStuff::ConTokenGen. */
  class ConTokenGen {
    const maxTokens: int
    var toks: set<ConToken>

    /** Holds every id in 0 .. maxTokens-1. */
    constructor ()
      ensures maxTokens == MaxTokens
      ensures toks == Ids(0, MaxTokens)
    {
      var ids: set<ConToken> := {};
      var i := 0;
      while i < MaxTokens
        invariant 0 <= i <= MaxTokens
        invariant ids == Ids(0, i)
      {
        ids := ids + {i as ConToken};
        i := i + 1;
      }
      maxTokens := MaxTokens;
      toks := ids;
    }

    /** Removes and returns the smallest free token; None is the "Out of tokens" exception. */
    method GetToken() returns (r: Option<ConToken>)
      modifies this
      ensures old(toks) == {} ==> r == None && toks == old(toks)
      ensures old(toks) != {} ==> r == Some(Min(old(toks))) && toks == old(toks) - {Min(old(toks))}
    {
      if toks == {} {
        return None;
      }
      MinExists(toks);
      var w :| w in toks && IsMin(w, toks);
      toks := toks - {w};
      r := Some(w);
    }

    /** Puts a token back. */
    method ReturnToken(tok: ConToken)
      modifies this
      ensures toks == old(toks) + {tok}
    {
      toks := toks + {tok};
    }
  }

  /** Three calls on a fresh generator hand out 0, 1 and 2. */
  method FreshGeneratorHandsOutInOrder() returns (a: Option<ConToken>, b: Option<ConToken>, c: Option<ConToken>)
    ensures a == Some(0) && b == Some(1) && c == Some(2)
  {
    var gen := new ConTokenGen();
    LowestId(0, MaxTokens);
    a := gen.GetToken();
    LowestId(1, MaxTokens);
    b := gen.GetToken();
    LowestId(2, MaxTokens);
    c := gen.GetToken();
  }
}
