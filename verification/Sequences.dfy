/** Facts about finite sequences shared by the rest of the project. */
module Sequences {

  datatype Option<+T> = None | Some(value: T)

  function Elems<T>(s: seq<T>): (r: set<T>)
  {
    set x | x in s
  }

  lemma ElemsAppend<T>(s: seq<T>, x: T)
    ensures Elems(s + [x]) == Elems(s) + {x}
    ensures x in Elems(s) <==> x in s
  {
  }

  ghost predicate NoDup<T>(s: seq<T>)
  {
    forall i, j :: 0 <= i < j < |s| ==> s[i] != s[j]
  }

  /** The elements of s that belong to keep, in order and with repetitions. */
  function KeepIn<T(==,!new)>(s: seq<T>, keep: set<T>): (r: seq<T>)
    ensures forall x :: x in r <==> x in s && x in keep
  {
    if s == [] then []
    else
      var rest := KeepIn(s[..|s| - 1], keep);
      if s[|s| - 1] in keep then rest + [s[|s| - 1]] else rest
  }

  lemma KeepInAppend<T(!new)>(s: seq<T>, x: T, keep: set<T>)
    ensures KeepIn(s + [x], keep) == KeepIn(s, keep) + (if x in keep then [x] else [])
  {
    assert (s + [x])[..|s|] == s;
  }

  lemma KeepInElems<T(!new)>(s: seq<T>, keep: set<T>)
    ensures Elems(KeepIn(s, keep)) == Elems(s) * keep
  {
  }

  lemma {:induction false} KeepInNone<T(!new)>(s: seq<T>)
    ensures KeepIn(s, {}) == []
  {
    if s != [] {
      KeepInNone(s[..|s| - 1]);
    }
  }

  /** The first occurrences of the elements of s that are not in seen. */
  function Unseen<T(==,!new)>(s: seq<T>, seen: set<T>): (r: seq<T>)
    ensures Elems(r) == Elems(s) - seen
    ensures NoDup(r)
  {
    if s == [] then []
    else
      var rest := Unseen(s[..|s| - 1], seen);
      var x := s[|s| - 1];
      assert Elems(s) == Elems(s[..|s| - 1]) + {x} by { assert s == s[..|s| - 1] + [x]; }
      assert Elems(rest + [x]) == Elems(rest) + {x};
      if x in seen || x in rest then rest else rest + [x]
  }

  lemma UnseenAppend<T(!new)>(s: seq<T>, x: T, seen: set<T>)
    ensures Unseen(s + [x], seen) ==
            if x in seen || x in Unseen(s, seen) then Unseen(s, seen) else Unseen(s, seen) + [x]
  {
    assert (s + [x])[..|s|] == s;
  }

  /** What comes later adds what was not listed before. */
  lemma {:induction false} UnseenConcat<T(!new)>(a: seq<T>, b: seq<T>, seen: set<T>)
    ensures Unseen(a + b, seen) == Unseen(a, seen) + Unseen(b, seen + Elems(Unseen(a, seen)))
  {
    hide *;
    if b == [] {
      assert a + b == a;
      UnseenNothing(seen + Elems(Unseen(a, seen)));
    } else {
      var n, x := |b| - 1, b[|b| - 1];
      var first := Unseen(a, seen);
      var more := Unseen(b[..n], seen + Elems(first));
      UnseenConcat(a, b[..n], seen);
      assert b == b[..n] + [x];
      assert a + b == a + b[..n] + [x];
      UnseenAppend(a + b[..n], x, seen);
      UnseenAppend(b[..n], x, seen + Elems(first));
      AddedAtEnd(first, more, x, seen);
    }
  }

  lemma UnseenNothing<T(!new)>(seen: set<T>)
    ensures Unseen([], seen) == []
  {
  }

  lemma AddedAtEnd<T(!new)>(first: seq<T>, more: seq<T>, x: T, seen: set<T>)
    ensures (if x in seen || x in first + more then first + more else (first + more) + [x]) ==
            first + if x in seen + Elems(first) || x in more then more else more + [x]
  {
    ElemsAppend(first, x);
    hide *;
    assert (first + more) + [x] == first + (more + [x]);
  }

  /** One more element is kept if it was neither seen nor kept before. */
  lemma UnseenNext<T(!new)>(s: seq<T>, x: T, seen: set<T>)
    ensures x in seen + Elems(Unseen(s, seen)) ==> Unseen(s + [x], seen) == Unseen(s, seen)
    ensures x !in seen + Elems(Unseen(s, seen)) ==>
              Unseen(s + [x], seen) == Unseen(s, seen) + [x]
              && seen + Elems(Unseen(s, seen) + [x]) == seen + Elems(Unseen(s, seen)) + {x}
  {
    UnseenAppend(s, x, seen);
    ElemsAppend(Unseen(s, seen), x);
  }

  /** Dropping repetitions first changes nothing. */
  lemma {:induction false} UnseenUnseen<T(!new)>(s: seq<T>, seen: set<T>)
    ensures Unseen(Unseen(s, {}), seen) == Unseen(s, seen)
  {
    if s != [] {
      var n := |s| - 1;
      var front := Unseen(s[..n], {});
      UnseenUnseen(s[..n], seen);
      assert s == s[..n] + [s[n]];
      UnseenAppend(s[..n], s[n], {});
      UnseenAppend(s[..n], s[n], seen);
      UnseenAppend(front, s[n], seen);
      assert s[n] in front <==> s[n] in Elems(front);
      assert s[n] in Unseen(s[..n], seen) <==> s[n] in Elems(Unseen(s[..n], seen));
    }
  }

  /** r is what stands in s at these positions, in order. */
  ghost predicate Picks<T>(s: seq<T>, at: seq<nat>, r: seq<T>)
  {
    && |at| == |r|
    && (forall k :: 0 <= k < |at| ==> at[k] < |s| && r[k] == s[at[k]])
    && (forall j, k :: 0 <= j < k < |at| ==> at[j] < at[k])
  }

  /** One more element, taken or not. */
  lemma PicksNext<T>(s: seq<T>, x: T, at: seq<nat>, r: seq<T>)
    requires Picks(s, at, r)
    ensures Picks(s + [x], at, r) && Picks(s + [x], at + [|s|], r + [x])
  {
  }

  /** KeepIn takes exactly the positions that hold an element of keep. */
  lemma {:induction false} KeepInPicks<T(!new)>(s: seq<T>, keep: set<T>) returns (at: seq<nat>)
    ensures Picks(s, at, KeepIn(s, keep))
    ensures forall i: nat :: i in at <==> i < |s| && s[i] in keep
  {
    at := [];
    if s != [] {
      var n := |s| - 1;
      at := KeepInPicks(s[..n], keep);
      PicksNext(s[..n], s[n], at, KeepIn(s[..n], keep));
      assert s == s[..n] + [s[n]];
      if s[n] in keep {
        at := at + [n];
      }
    }
  }

  /** The element at n is its first occurrence, and not one of seen. */
  ghost predicate IsFirst<T(!new)>(s: seq<T>, seen: set<T>, n: nat)
  {
    n < |s| && s[n] !in seen && s[n] !in s[..n]
  }

  lemma IsFirstBefore<T(!new)>(s: seq<T>, seen: set<T>, n: nat, i: nat)
    requires n == |s| - 1
    ensures i < n ==> (IsFirst(s, seen, i) <==> IsFirst(s[..n], seen, i))
    ensures i >= n ==> !IsFirst(s[..n], seen, i)
    ensures i > n ==> !IsFirst(s, seen, i)
  {
    if i < n { assert s[..n][..i] == s[..i]; }
  }

  lemma UnseenLast<T(!new)>(s: seq<T>, seen: set<T>, n: nat)
    requires n == |s| - 1
    ensures Unseen(s, seen) == Unseen(s[..n], seen) + if IsFirst(s, seen, n) then [s[n]] else []
  {
    var rest := Unseen(s[..n], seen);
    assert s[n] in rest <==> s[n] in Elems(rest);
    assert s[n] in Elems(s[..n]) <==> s[n] in s[..n];
    assert rest + [] == rest;
  }

  /** Unseen takes exactly the positions of first occurrences, those of elements seen aside. */
  lemma {:induction false} UnseenPicks<T(!new)>(s: seq<T>, seen: set<T>) returns (at: seq<nat>)
    ensures Picks(s, at, Unseen(s, seen))
    ensures forall i: nat :: i in at <==> IsFirst(s, seen, i)
  {
    at := [];
    if s == [] {
      assert Unseen(s, seen) == [];
    } else {
      hide *;
      var n := |s| - 1;
      at := UnseenPicks(s[..n], seen);
      PicksNext(s[..n], s[n], at, Unseen(s[..n], seen));
      assert s == s[..n] + [s[n]];
      UnseenLast(s, seen, n);
      forall i: nat
        ensures i in at <==> i < n && IsFirst(s, seen, i)
      {
        IsFirstBefore(s, seen, n, i);
      }
      forall i: nat | i > n
        ensures !IsFirst(s, seen, i)
      {
        IsFirstBefore(s, seen, n, i);
      }
      assert Unseen(s[..n], seen) + [] == Unseen(s[..n], seen);
      if IsFirst(s, seen, n) {
        at := at + [n];
      }
    }
  }

  /** r holds the elements of keep among s, at their places. */
  ghost predicate KeptAt<T(!new)>(s: seq<T>, keep: set<T>, r: seq<T>)
  {
    exists at :: Picks(s, at, r) && forall i: nat :: i in at <==> i < |s| && s[i] in keep
  }

  lemma KeepInIs<T(!new)>(s: seq<T>, keep: set<T>)
    ensures KeptAt(s, keep, KeepIn(s, keep))
  {
    var at := KeepInPicks(s, keep);
  }

  /** r lists each element of s that is not in seen once, where it first occurs. */
  ghost predicate FirstOccurrences<T(!new)>(s: seq<T>, seen: set<T>, r: seq<T>)
  {
    exists at :: Picks(s, at, r) && forall i: nat :: i in at <==> IsFirst(s, seen, i)
  }

  lemma UnseenIs<T(!new)>(s: seq<T>, seen: set<T>)
    ensures FirstOccurrences(s, seen, Unseen(s, seen))
  {
    var at := UnseenPicks(s, seen);
  }

  lemma {:induction false} ElemsOfIncreasing(at: seq<nat>)
    requires forall j, k :: 0 <= j < k < |at| ==> at[j] < at[k]
    ensures |Elems(at)| == |at|
  {
    if at != [] {
      var n := |at| - 1;
      ElemsOfIncreasing(at[..n]);
      assert at == at[..n] + [at[n]];
      ElemsAppend(at[..n], at[n]);
    }
  }

  /** The positions not picked. */
  lemma PicksLeave<T>(s: seq<T>, at: seq<nat>, r: seq<T>)
    requires Picks(s, at, r)
    ensures |Indices(|s|) - Elems(at)| == |s| - |r|
  {
    ElemsOfIncreasing(at);
    assert Elems(at) <= Indices(|s|);
  }

  function Concat<T(!new)>(ss: seq<seq<T>>): (r: seq<T>)
    ensures forall x :: x in r <==> exists i :: 0 <= i < |ss| && x in ss[i]
  {
    if ss == [] then []
    else
      var n := |ss| - 1;
      assert ss == ss[..n] + [ss[n]];
      Concat(ss[..n]) + ss[n]
  }

  lemma ConcatAppend<T(!new)>(ss: seq<seq<T>>, s: seq<T>)
    ensures Concat(ss + [s]) == Concat(ss) + s
  {
    assert (ss + [s])[..|ss|] == ss;
  }

  /** The numbers below n. */
  function Indices(n: nat): (r: set<nat>)
    ensures forall i :: i in r <==> 0 <= i < n
    ensures |r| == n
  {
    if n == 0 then {} else Indices(n - 1) + {n - 1}
  }

  lemma TakeNext<T>(s: seq<T>, i: nat)
    requires i < |s|
    ensures s[..i + 1] == s[..i] + [s[i]]
  {
  }
}
