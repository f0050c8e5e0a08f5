/** Sorted lists of strings, as sort.Strings leaves them: one list for each multiset. */
module Sorting {
  import opened Sequences

  predicate StrLe(a: string, b: string)
  {
    a == "" || (b != "" && (a[0] < b[0] || (a[0] == b[0] && StrLe(a[1..], b[1..]))))
  }

  lemma {:induction false} StrLeTotal(a: string, b: string)
    ensures StrLe(a, b) || StrLe(b, a)
  {
    if a != "" && b != "" && a[0] == b[0] {
      StrLeTotal(a[1..], b[1..]);
    }
  }

  lemma {:induction false} StrLeAntisymmetric(a: string, b: string)
    requires StrLe(a, b) && StrLe(b, a)
    ensures a == b
  {
    if a != "" && b != "" {
      StrLeAntisymmetric(a[1..], b[1..]);
      assert a == [a[0]] + a[1..] && b == [b[0]] + b[1..];
    }
  }

  lemma {:induction false} StrLeTransitive(a: string, b: string, c: string)
    requires StrLe(a, b) && StrLe(b, c)
    ensures StrLe(a, c)
  {
    if a != "" && a[0] == b[0] && b[0] == c[0] {
      StrLeTransitive(a[1..], b[1..], c[1..]);
    }
  }

  /** a comes before b byte by byte: it is a beginning of it, or smaller where they first differ. */
  ghost predicate ByteLe(a: string, b: string)
  {
    a <= b || exists i :: 0 <= i < |a| && i < |b| && a[..i] == b[..i] && a[i] < b[i]
  }

  lemma {:induction false} StrLeIsByteLe(a: string, b: string)
    ensures StrLe(a, b) <==> ByteLe(a, b)
  {
    if a != "" && b != "" {
      StrLeIsByteLe(a[1..], b[1..]);
      assert a == [a[0]] + a[1..] && b == [b[0]] + b[1..];
      if a[0] < b[0] {
        assert a[..0] == b[..0];
      } else if a[0] == b[0] {
        SameStart(a, b);
      }
    }
  }

  lemma SameStart(a: string, b: string)
    requires a != "" && b != "" && a[0] == b[0]
    ensures ByteLe(a, b) <==> ByteLe(a[1..], b[1..])
  {
    assert a == [a[0]] + a[1..] && b == [b[0]] + b[1..];
    if i :| 0 <= i < |a| && i < |b| && a[..i] == b[..i] && a[i] < b[i] {
      assert a[1..][..i - 1] == a[..i][1..] && b[1..][..i - 1] == b[..i][1..];
    }
    if i :| 0 <= i < |a[1..]| && i < |b[1..]| && a[1..][..i] == b[1..][..i] && a[1..][i] < b[1..][i] {
      assert a[..i + 1] == [a[0]] + a[1..][..i] && b[..i + 1] == [b[0]] + b[1..][..i];
    }
  }

  ghost predicate Ascending(list: seq<string>)
  {
    forall i, j :: 0 <= i < j < |list| ==> ByteLe(list[i], list[j])
  }

  /** The elements of s, as often as in s, in byte order. */
  ghost predicate InByteOrder(list: seq<string>, s: seq<string>)
  {
    multiset(list) == multiset(s) && Ascending(list)
  }

  ghost predicate Sorted(s: seq<string>)
  {
    forall i, j :: 0 <= i < j < |s| ==> StrLe(s[i], s[j])
  }

  function Insert(x: string, s: seq<string>): (r: seq<string>)
    ensures multiset(r) == multiset(s) + multiset{x}
  {
    if s == [] || StrLe(x, s[0]) then [x] + s
    else
      assert s == [s[0]] + s[1..];
      [s[0]] + Insert(x, s[1..])
  }

  function Sort(s: seq<string>): (r: seq<string>)
    ensures multiset(r) == multiset(s)
  {
    if s == [] then []
    else
      assert s == [s[0]] + s[1..];
      Insert(s[0], Sort(s[1..]))
  }

  lemma {:induction false} InsertSorted(x: string, s: seq<string>)
    requires Sorted(s)
    ensures Sorted(Insert(x, s))
  {
    if s == [] {
    } else if StrLe(x, s[0]) {
      forall j | 0 <= j < |s|
        ensures StrLe(x, s[j])
      {
        if j > 0 { StrLeTransitive(x, s[0], s[j]); }
      }
    } else {
      StrLeTotal(x, s[0]);
      InsertSorted(x, s[1..]);
      var rest := Insert(x, s[1..]);
      forall j | 0 <= j < |rest|
        ensures StrLe(s[0], rest[j])
      {
        assert rest[j] in multiset(rest);
        assert rest[j] == x || rest[j] in s[1..];
      }
    }
  }

  lemma {:induction false} SortSorted(s: seq<string>)
    ensures Sorted(Sort(s))
  {
    if s != [] {
      SortSorted(s[1..]);
      InsertSorted(s[0], Sort(s[1..]));
    }
  }

  lemma SortedIsAscending(list: seq<string>)
    requires Sorted(list)
    ensures Ascending(list)
  {
    forall i, j | 0 <= i < j < |list|
      ensures ByteLe(list[i], list[j])
    {
      StrLeIsByteLe(list[i], list[j]);
    }
  }

  /** What sort.Strings does. */
  lemma SortIs(s: seq<string>)
    ensures InByteOrder(Sort(s), s)
  {
    SortSorted(s);
    SortedIsAscending(Sort(s));
  }

  lemma WithoutFirst(s: seq<string>)
    requires s != []
    ensures multiset(s[1..]) == multiset(s) - multiset{s[0]}
  {
    assert s == [s[0]] + s[1..];
  }

  lemma FirstOfEqual(a: seq<string>, b: seq<string>)
    requires Sorted(b) && multiset(a) == multiset(b) && a != [] && b != []
    ensures StrLe(b[0], a[0])
  {
    assert a[0] in multiset(a);
    var i :| 0 <= i < |b| && b[i] == a[0];
    LeastFirst(b, i);
  }

  lemma SortedTail(s: seq<string>)
    requires Sorted(s) && s != []
    ensures Sorted(s[1..])
  {
  }

  lemma SameFirst(a: seq<string>, b: seq<string>)
    requires Sorted(a) && Sorted(b) && multiset(a) == multiset(b) && a != [] && b != []
    ensures a[0] == b[0] && multiset(a[1..]) == multiset(b[1..])
  {
    hide *;
    FirstOfEqual(a, b);
    FirstOfEqual(b, a);
    StrLeAntisymmetric(a[0], b[0]);
    WithoutFirst(a);
    WithoutFirst(b);
  }

  /** A sorted list is determined by how often each string occurs in it. */
  lemma {:induction false} SortedUnique(a: seq<string>, b: seq<string>)
    requires Sorted(a) && Sorted(b) && multiset(a) == multiset(b)
    ensures a == b
  {
    assert |multiset(a)| == |a| && |multiset(b)| == |b|;
    hide *;
    if a != [] {
      SortedTail(a);
      SortedTail(b);
      SameFirst(a, b);
      SortedUnique(a[1..], b[1..]);
      assert a == [a[0]] + a[1..] && b == [b[0]] + b[1..];
    }
  }

  lemma LeastFirst(s: seq<string>, i: nat)
    requires Sorted(s) && i < |s|
    ensures StrLe(s[0], s[i])
  {
    if i == 0 { StrLeTotal(s[0], s[0]); }
  }

  /** Sorting forgets the order, and nothing but the order. */
  lemma SortCanonical(a: seq<string>, b: seq<string>)
    ensures Sort(a) == Sort(b) <==> multiset(a) == multiset(b)
  {
    if multiset(a) == multiset(b) {
      SortSorted(a);
      SortSorted(b);
      SortedUnique(Sort(a), Sort(b));
    }
  }

  lemma SortElements(s: seq<string>, x: string)
    ensures x in Sort(s) <==> x in s
  {
    assert x in multiset(Sort(s)) <==> x in multiset(s);
  }

  lemma {:induction false} InsertNoDup(x: string, s: seq<string>)
    requires NoDup(s) && x !in s
    ensures NoDup(Insert(x, s))
  {
    if s != [] && !StrLe(x, s[0]) {
      InsertNoDup(x, s[1..]);
      var rest := Insert(x, s[1..]);
      forall j | 0 <= j < |rest|
        ensures rest[j] != s[0]
      {
        assert rest[j] in multiset(rest);
        assert rest[j] == x || rest[j] in s[1..];
      }
    }
  }

  lemma {:induction false} SortNoDup(s: seq<string>)
    requires NoDup(s)
    ensures NoDup(Sort(s))
  {
    if s != [] {
      SortNoDup(s[1..]);
      SortElements(s[1..], s[0]);
      InsertNoDup(s[0], Sort(s[1..]));
    }
  }
}
