/** Names and the sequence vocabulary shared by the shuffler, the grouper and
    the match pairer. A participant is identified by its display name alone. */
module Roster {

  type Name = string

  datatype Option<T> = None | Some(value: T)

  /** The set of names occurring in a roster. */
  function Elems(s: seq<Name>): set<Name>
  {
    set x | x in s
  }

  /** No name occurs twice. */
  predicate Distinct(s: seq<Name>)
  {
    forall i, j :: 0 <= i < j < |s| ==> s[i] != s[j]
  }

  /** JavaScript truthiness of a name: only the empty string is falsy. */
  predicate Named(x: Name)
  {
    x != ""
  }

  /** Every name in the roster is truthy. */
  predicate AllNamed(s: seq<Name>)
  {
    forall i :: 0 <= i < |s| ==> Named(s[i])
  }

  /** `[a, b].filter(Boolean)`: the truthy ones of two names, in order. */
  function TruthyPair(a: Name, b: Name): (r: seq<Name>)
    ensures AllNamed(r)
    ensures |r| == (if Named(a) then 1 else 0) + (if Named(b) then 1 else 0)
    ensures Named(a) ==> r[0] == a
    ensures Named(b) ==> r[|r| - 1] == b
    ensures |r| == 2 <==> Named(a) && Named(b)
    ensures Named(a) && Named(b) ==> r == [a, b]
  {
    (if Named(a) then [a] else []) + (if Named(b) then [b] else [])
  }

  /** Filtering drops the empty names and only them: every non-empty name
      keeps its count. */
  lemma TruthyPairSub(a: Name, b: Name)
    ensures multiset(TruthyPair(a, b)) == multiset([a, b])["" := 0]
    ensures multiset(TruthyPair(a, b)) <= multiset([a, b])
    ensures forall x :: Named(x) ==> multiset(TruthyPair(a, b))[x] == multiset([a, b])[x]
  {
  }

  /** The names of `s` that are not in `seen`, each at its first occurrence,
      in roster order: what a left-to-right scan that skips every name already
      marked as used, and marks every name it takes, would take. */
  function Unseen(s: seq<Name>, seen: set<Name>): seq<Name>
    decreases |s|
  {
    if s == [] then []
    else if s[0] in seen then Unseen(s[1..], seen)
    else [s[0]] + Unseen(s[1..], seen + {s[0]})
  }

  /** The scan takes exactly the unseen names, each once. */
  lemma {:induction false} UnseenElems(s: seq<Name>, seen: set<Name>)
    ensures Elems(Unseen(s, seen)) == Elems(s) - seen
    ensures Distinct(Unseen(s, seen))
    decreases |s|
  {
    if s != [] {
      ElemsCons(s);
      if s[0] in seen {
        UnseenElems(s[1..], seen);
      } else {
        var rest := Unseen(s[1..], seen + {s[0]});
        UnseenElems(s[1..], seen + {s[0]});
        ElemsAppend([s[0]], rest);
        assert forall k :: 0 <= k < |rest| ==> rest[k] in Elems(rest);
      }
    }
  }

  /** The first occurrence of every name of `s`, in order. */
  function Dedup(s: seq<Name>): seq<Name>
  {
    Unseen(s, {})
  }

  /** Concatenation of a sequence of groups. */
  function Flatten(gs: seq<seq<Name>>): seq<Name>
  {
    if gs == [] then [] else gs[0] + Flatten(gs[1..])
  }

  lemma AppendAssoc(a: seq<Name>, b: seq<Name>, c: seq<Name>)
    ensures (a + b) + c == a + (b + c)
  {
  }

  lemma ElemsCons(s: seq<Name>)
    requires s != []
    ensures Elems(s) == {s[0]} + Elems(s[1..])
  {
    assert s == [s[0]] + s[1..];
  }

  lemma ElemsAppend(a: seq<Name>, b: seq<Name>)
    ensures Elems(a + b) == Elems(a) + Elems(b)
  {
    assert forall x :: x in a + b <==> x in a || x in b;
  }

  lemma {:induction false} FlattenAppend(gs: seq<seq<Name>>, g: seq<Name>)
    ensures Flatten(gs + [g]) == Flatten(gs) + g
    decreases |gs|
  {
    if gs == [] {
      assert [] + [g] == [g];
    } else {
      assert (gs + [g])[1..] == gs[1..] + [g];
      FlattenAppend(gs[1..], g);
    }
  }

  /** A distinct roster none of whose names has been seen is its own scan. */
  lemma {:induction false} UnseenOfFresh(s: seq<Name>, seen: set<Name>)
    requires Distinct(s)
    requires Elems(s) !! seen
    ensures Unseen(s, seen) == s
    decreases |s|
  {
    if s != [] {
      var tail := s[1..];
      assert Distinct(tail) by {
        forall i, j | 0 <= i < j < |tail|
          ensures tail[i] != tail[j]
        {
          assert tail[i] == s[i + 1] && tail[j] == s[j + 1];
        }
      }
      assert s[0] !in Elems(tail) by {
        forall k | 0 <= k < |tail|
          ensures tail[k] != s[0]
        {
          assert tail[k] == s[k + 1];
        }
      }
      ElemsCons(s);
      UnseenOfFresh(tail, seen + {s[0]});
    }
  }

  /** Deduplication leaves a roster without duplicates as it is. */
  lemma DedupOfDistinct(s: seq<Name>)
    requires Distinct(s)
    ensures Dedup(s) == s
  {
    UnseenOfFresh(s, {});
  }

  /** Deduplication keeps exactly the names of the roster. */
  lemma DedupElems(s: seq<Name>)
    ensures Elems(Dedup(s)) == Elems(s)
    ensures Distinct(Dedup(s))
  {
    UnseenElems(s, {});
  }

  /** A prefix made only of names already seen contributes nothing to the scan. */
  lemma {:induction false} UnseenSkipsSeen(s: seq<Name>, n: nat, seen: set<Name>)
    requires n <= |s|
    requires forall k :: 0 <= k < n ==> s[k] in seen
    ensures Unseen(s, seen) == Unseen(s[n..], seen)
    decreases n
  {
    if n > 0 {
      assert s[1..][n - 1..] == s[n..];
      UnseenSkipsSeen(s[1..], n - 1, seen);
    }
  }

  /** The elements of a distinct concatenation do not overlap. */
  lemma DistinctAppend(a: seq<Name>, b: seq<Name>)
    requires Distinct(a + b)
    ensures Distinct(a) && Distinct(b)
    ensures Elems(a) !! Elems(b)
  {
    forall i, j | 0 <= i < |a| && 0 <= j < |b|
      ensures a[i] != b[j]
    {
      assert (a + b)[i] == a[i] && (a + b)[|a| + j] == b[j];
    }
    forall i, j | 0 <= i < j < |b|
      ensures b[i] != b[j]
    {
      assert (a + b)[|a| + i] == b[i] && (a + b)[|a| + j] == b[j];
    }
    forall i, j | 0 <= i < j < |a|
      ensures a[i] != a[j]
    {
      assert (a + b)[i] == a[i] && (a + b)[j] == a[j];
    }
  }

  /** In a roster without repeated names every name occurs at most once. */
  lemma {:induction false} DistinctCount(s: seq<Name>, x: Name)
    requires Distinct(s)
    ensures multiset(s)[x] <= 1
    decreases |s|
  {
    if s != [] {
      var tail := s[1..];
      assert s == [s[0]] + tail;
      assert Distinct(tail) by {
        forall i, j | 0 <= i < j < |tail|
          ensures tail[i] != tail[j]
        {
          assert tail[i] == s[i + 1] && tail[j] == s[j + 1];
        }
      }
      DistinctCount(tail, x);
      if x == s[0] {
        forall k | 0 <= k < |tail|
          ensures tail[k] != x
        {
          assert tail[k] == s[k + 1];
        }
        assert x !in multiset(tail);
      }
    }
  }
}
