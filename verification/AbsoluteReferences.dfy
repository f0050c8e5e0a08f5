/**
 The absolute references a fingerprint joins by commas. Written references hold no
 comma, but the store directory put before them may, and then two lists can read the
 same: exactly if some reference in that directory reads as a sorted list itself.
 */
module AbsoluteReferences {
  import opened Text
  import opened Sorting

  /** filepath.IsAbs. */
  predicate IsAbs(path: string)
  {
    path != "" && path[0] == '/'
  }

  function Absolute(storeDir: string, ref: string): string
  {
    if IsAbs(ref) then ref else storeDir + "/" + ref
  }

  function AbsoluteAll(storeDir: string, refs: seq<string>): (r: seq<string>)
    ensures |r| == |refs| && forall i :: 0 <= i < |r| ==> r[i] == Absolute(storeDir, refs[i])
  {
    seq(|refs|, i requires 0 <= i < |refs| => Absolute(storeDir, refs[i]))
  }

  function Joined(storeDir: string, refs: seq<string>): string
  {
    Join(Sort(AbsoluteAll(storeDir, refs)), ",")
  }

  /** No reference holds a comma as it is written. */
  predicate Plain(refs: seq<string>)
  {
    forall r :: r in refs ==> ',' !in r
  }

  /** A sorted list of several absolute paths. */
  ghost predicate ReadsAsList(pieces: seq<string>)
  {
    |pieces| >= 2 && (forall p :: p in pieces ==> IsAbs(p)) && Sorted(pieces)
  }

  /** In the directory, this reference reads as a list of other references. */
  ghost predicate Ambiguous(storeDir: string, r: string)
  {
    ',' !in r && !IsAbs(r) && ReadsAsList(Split(storeDir + "/" + r, ','))
  }

  // ---- an ambiguous reference --------------------------------------------------------------

  lemma PiecesArePlain(storeDir: string, pieces: seq<string>)
    requires forall p :: p in pieces ==> IsAbs(p)
    ensures AbsoluteAll(storeDir, pieces) == pieces
  {
    forall i | 0 <= i < |pieces|
      ensures AbsoluteAll(storeDir, pieces)[i] == pieces[i]
    {
      assert pieces[i] in pieces;
    }
  }

  lemma SortedStays(s: seq<string>)
    requires Sorted(s)
    ensures Sort(s) == s
  {
    SortSorted(s);
    SortedUnique(Sort(s), s);
  }

  lemma SortOne(x: string)
    ensures Sort([x]) == [x]
  {
    assert [x][1..] == [];
  }

  /** It has the text of the list it reads as. */
  lemma AmbiguousCollides(storeDir: string, r: string)
    requires Ambiguous(storeDir, r)
    ensures var pieces := Split(storeDir + "/" + r, ',');
      && Plain([r]) && Plain(pieces) && Joined(storeDir, [r]) == Joined(storeDir, pieces)
      && multiset(AbsoluteAll(storeDir, [r])) != multiset(AbsoluteAll(storeDir, pieces))
  {
    var x := storeDir + "/" + r;
    var pieces := Split(x, ',');
    assert AbsoluteAll(storeDir, [r]) == [x];
    SplitPieces(x, ',');
    JoinSplit(x, ',');
    PiecesArePlain(storeDir, pieces);
    hide Split, AbsoluteAll, Sort, Sorted;
    SortedStays(pieces);
    SortOne(x);
    assert |multiset([x])| == 1 && |multiset(pieces)| == |pieces|;
  }

  // ---- the pieces of a list ------------------------------------------------------------------

  /** What lies between the commas of the joined list. */
  function Pieces(list: seq<string>): seq<string>
  {
    if list == [] then [] else Split(list[0], ',') + Pieces(list[1..])
  }

  lemma {:induction false} PiecesAppend(list: seq<string>, x: string)
    ensures Pieces(list + [x]) == Pieces(list) + Split(x, ',')
  {
    hide Split;
    if list == [] {
      assert ([] + [x])[1..] == [] && Pieces([]) == [];
      assert Pieces([x]) == Split(x, ',') + [];
    } else {
      assert (list + [x])[0] == list[0] && (list + [x])[1..] == list[1..] + [x];
      PiecesAppend(list[1..], x);
    }
  }

  lemma {:induction false} SplitJoined(list: seq<string>)
    requires list != []
    ensures Split(Join(list, ","), ',') == Pieces(list)
  {
    hide Split;
    var n := |list| - 1;
    assert list == list[..n] + [list[n]];
    PiecesAppend(list[..n], list[n]);
    if n == 0 {
      assert list[..0] == [] && Pieces([]) == [];
    } else {
      SplitJoined(list[..n]);
      SplitAppend(Join(list[..n], ","), list[n], ',');
    }
  }

  lemma SplitPlain(x: string)
    requires ',' !in x
    ensures Split(x, ',') == [x]
  {
    SplitJoin([x], ',');
  }

  /** Leading paths without commas are pieces themselves. */
  lemma {:induction false} LeadingPieces(list: seq<string>, m: nat)
    requires m <= |list| && forall i :: 0 <= i < m ==> ',' !in list[i]
    ensures Pieces(list) == list[..m] + Pieces(list[m..])
  {
    hide Split;
    if m == 0 {
      assert list[..0] == [] && list[0..] == list;
    } else {
      SplitPlain(list[0]);
      LeadingPieces(list[1..], m - 1);
      assert list[1..][m - 1..] == list[m..];
      assert list[..m] == [list[0]] + list[1..][..m - 1];
    }
  }

  // ---- references in a directory with commas ---------------------------------------------------

  /** The pieces of reference r in a directory with these pieces. */
  function In(dir: seq<string>, r: string): (x: seq<string>)
    requires dir != []
    ensures |x| == |dir| && forall t :: 0 <= t < |dir| - 1 ==> x[t] == dir[t]
  {
    dir[..|dir| - 1] + [dir[|dir| - 1] + "/" + r]
  }

  ghost predicate IsIn(dir: seq<string>, x: seq<string>)
    requires dir != []
  {
    exists r :: ',' !in r && !IsAbs(r) && x == In(dir, r)
  }

  lemma InShape(dir: seq<string>, x: seq<string>)
    requires dir != [] && IsIn(dir, x)
    ensures |x| == |dir| && forall t :: 0 <= t < |dir| - 1 ==> x[t] == dir[t]
  {
  }

  lemma SplitIn(storeDir: string, r: string)
    requires ',' !in r
    ensures Split(storeDir + "/" + r, ',') == In(Split(storeDir, ','), r)
  {
    SplitScanPiece(storeDir, "/" + r, ',');
    assert storeDir + "/" + r == storeDir + ("/" + r);
    var piece := SplitScan(storeDir, ',').piece;
    assert piece + ("/" + r) == piece + "/" + r;
  }

  /** An absolute reference without a comma, or one in the directory. */
  ghost predicate IsReference(storeDir: string, x: string)
  {
    (',' !in x && IsAbs(x)) || IsIn(Split(storeDir, ','), Split(x, ','))
  }

  lemma AbsoluteIsReference(storeDir: string, refs: seq<string>, x: string)
    requires Plain(refs) && x in Sort(AbsoluteAll(storeDir, refs))
    ensures x != "" && IsReference(storeDir, x)
  {
    SortElements(AbsoluteAll(storeDir, refs), x);
    hide Split, Sort;
    var i :| 0 <= i < |refs| && AbsoluteAll(storeDir, refs)[i] == x;
    assert refs[i] in refs;
    if !IsAbs(refs[i]) {
      SplitIn(storeDir, refs[i]);
    }
  }

  lemma OnlyPiece(x: string)
    requires |Split(x, ',')| == 1
    ensures ',' !in x
  {
    JoinSplit(x, ',');
    SplitPieces(x, ',');
    assert Split(x, ',')[0] == x && x in Split(x, ',');
  }

  lemma SplitComma(x: string)
    ensures |Split(x, ',')| > 1 <==> ',' in x
  {
    hide Split;
    if ',' !in x {
      SplitPlain(x);
    }
    if |Split(x, ',')| == 1 {
      OnlyPiece(x);
    }
  }

  /** How a path without a comma compares with one that has a comma does not depend on what follows the comma. */
  lemma {:induction false} CommaDecides(a: string, x: string, y: string)
    requires ',' !in a && ',' in x
    ensures StrLe(a, x + y) <==> StrLe(a, x)
  {
    if a != "" && a[0] == x[0] {
      assert (x + y)[1..] == x[1..] + y;
      CommaDecides(a[1..], x[1..], y);
    }
  }

  lemma PieceOfDir(storeDir: string, t: nat)
    requires t < |Split(storeDir, ',')|
    ensures ',' !in Split(storeDir, ',')[t]
  {
    SplitPieces(storeDir, ',');
  }

  /** A path without a comma that sorts before some reference in the directory sorts before the directory. */
  lemma BelowIn(storeDir: string, a: string, x: string)
    requires ',' !in a && ',' in storeDir && IsIn(Split(storeDir, ','), Split(x, ','))
    ensures StrLe(a, x) <==> StrLe(a, storeDir)
    ensures StrLe(a, x) <==> !StrLe(x, a)
  {
    hide Split, IsAbs, StrLe;
    var r :| ',' !in r && !IsAbs(r) && Split(x, ',') == In(Split(storeDir, ','), r);
    SplitIn(storeDir, r);
    SameSplit(x, storeDir + "/" + r);
    assert x == storeDir + ("/" + r);
    CommaComparison(storeDir, a, "/" + r);
  }

  lemma CommaComparison(x: string, a: string, y: string)
    requires ',' !in a && ',' in x
    ensures StrLe(a, x + y) <==> StrLe(a, x)
    ensures StrLe(a, x + y) <==> !StrLe(x + y, a)
  {
    hide StrLe;
    CommaDecides(a, x, y);
    StrLeTotal(a, x + y);
    assert ',' in x + y;
    if StrLe(a, x + y) && StrLe(x + y, a) {
      StrLeAntisymmetric(a, x + y);
    }
  }

  lemma SameSplit(x: string, y: string)
    requires Split(x, ',') == Split(y, ',')
    ensures x == y
  {
    JoinSplit(x, ',');
    JoinSplit(y, ',');
  }

  ghost predicate AllSame(dir: seq<string>)
  {
    forall t :: 0 <= t < |dir| - 1 ==> dir[t] == dir[0]
  }

  lemma {:induction false} StepsOfOne(dir: seq<string>, t: nat)
    requires forall s :: 0 <= s < |dir| - 2 ==> dir[s + 1] == dir[s]
    requires t < |dir| - 1
    ensures dir[t] == dir[0]
  {
    if t > 0 {
      StepsOfOne(dir, t - 1);
      assert dir[t - 1 + 1] == dir[t - 1];
    }
  }

  lemma {:induction false} Periodic(storeDir: string, dir: seq<string>, m: nat, t: nat)
    requires 1 <= m < |dir| && t < |dir| - 1
    requires forall s :: 0 <= s < m ==> StrLe(dir[s], storeDir)
    requires forall s :: m <= s < |dir| - 1 ==> dir[s] == dir[s - m]
    ensures StrLe(dir[t], storeDir)
  {
    if t >= m {
      Periodic(storeDir, dir, m, t - m);
    }
  }

  /** References that sort after one in the directory: others in it, or paths that sort after the directory. */
  ghost predicate After(storeDir: string, list: seq<string>)
  {
    forall x :: x in list ==> IsIn(Split(storeDir, ','), Split(x, ',')) || (',' !in x && !StrLe(x, storeDir))
  }

  /**
   One list cannot go on inside a reference in the directory while the other begins
   anew: each would have to catch up inside the other's next one for ever.
   */
  lemma {:induction false} NeverInStep(storeDir: string, dir: seq<string>, a: seq<string>, b: seq<string>,
                                       y: seq<string>, u: nat)
    requires dir == Split(storeDir, ',') && IsIn(dir, y) && 2 <= u < |dir|
    requires !AllSame(dir) && forall t :: 0 <= t < |dir| - 1 ==> StrLe(dir[t], storeDir)
    requires After(storeDir, a) && After(storeDir, b)
    requires Pieces(a) == y[|dir| - u..] + Pieces(b)
    ensures false
    decreases |a| + |b|
  {
    hide Split, StrLe, IsIn;
    var n := |dir|;
    InShape(dir, y);
    assert Pieces(a)[0] == y[n - u] == dir[n - u];
    var x := Split(a[0], ',');
    assert a[0] in a;
    if !IsIn(dir, x) {
      SplitPlain(a[0]);
      assert false;
    }
    InShape(dir, x);
    forall s | 0 <= s < u
      ensures x[s] == y[n - u + s]
    {
      assert Pieces(a)[s] == x[s];
    }
    if u == n - 1 {
      forall t | 0 <= t < n - 1
        ensures dir[t] == dir[0]
      {
        StepsOfOne(dir, t);
      }
      assert false;
    }
    assert x[u..] + Pieces(a[1..]) == Pieces(a)[u..] == Pieces(b);
    NeverInStep(storeDir, dir, b, a[1..], x, n - u);
  }

  // ---- two lists with one text -----------------------------------------------------------------

  /** How many paths without commas lead the list, up to a limit. */
  function Leading(list: seq<string>, limit: nat): (m: nat)
    ensures m <= limit && m <= |list|
    ensures forall i :: 0 <= i < m ==> ',' !in list[i]
    ensures m < limit && m < |list| ==> ',' in list[m]
  {
    if limit == 0 || list == [] || ',' in list[0] then 0 else 1 + Leading(list[1..], limit - 1)
  }

  ghost predicate References(storeDir: string, list: seq<string>)
  {
    Sorted(list) && forall x :: x in list ==> IsReference(storeDir, x)
  }

  lemma NotPlainIsIn(storeDir: string, x: string)
    requires IsReference(storeDir, x) && ',' in x
    ensures IsIn(Split(storeDir, ','), Split(x, ','))
  {
  }

  /** What sorts after a reference in the directory. */
  lemma RestIsAfter(storeDir: string, list: seq<string>, i: nat)
    requires References(storeDir, list) && ',' in storeDir && i < |list|
    requires IsIn(Split(storeDir, ','), Split(list[i], ','))
    ensures After(storeDir, list[i + 1..])
  {
    hide Split, StrLe, IsIn;
    forall x | x in list[i + 1..]
      ensures IsIn(Split(storeDir, ','), Split(x, ',')) || (',' !in x && !StrLe(x, storeDir))
    {
      var j :| 0 <= j < |list[i + 1..]| && list[i + 1..][j] == x;
      assert list[i + 1 + j] == x && StrLe(list[i], x) && IsReference(storeDir, x);
      if ',' !in x {
        BelowIn(storeDir, x, list[i]);
      }
    }
  }

  /** What sorts before one. */
  lemma LeadIsBelow(storeDir: string, list: seq<string>, m: nat, t: nat)
    requires References(storeDir, list) && ',' in storeDir && t < m < |list|
    requires ',' !in list[t] && IsIn(Split(storeDir, ','), Split(list[m], ','))
    ensures StrLe(list[t], storeDir)
  {
    hide Split, StrLe, IsIn;
    BelowIn(storeDir, list[t], list[m]);
  }

  /** The plain paths that lead a list are absolute and sorted. */
  lemma LeadReadsAsList(storeDir: string, list: seq<string>, m: nat)
    requires References(storeDir, list) && 2 <= m <= |list| && forall i :: 0 <= i < m ==> ',' !in list[i]
    requires ',' in storeDir
    ensures ReadsAsList(list[..m])
  {
    hide Split, StrLe;
    forall p | p in list[..m]
      ensures IsAbs(p)
    {
      assert p in list && IsReference(storeDir, p);
      PlainIsAbsolute(storeDir, p);
    }
  }

  lemma PlainIsAbsolute(storeDir: string, p: string)
    requires IsReference(storeDir, p) && ',' !in p && ',' in storeDir
    ensures IsAbs(p)
  {
    SplitComma(storeDir);
    SplitComma(p);
  }

  /** Where a reference in the directory meets m plain paths and the next reference in the directory. */
  lemma Overlap(dir: seq<string>, x: seq<string>, rest: seq<string>, lead: seq<string>, y: seq<string>,
                rest': seq<string>)
    requires dir != [] && IsIn(dir, x) && IsIn(dir, y) && 1 <= |lead| < |dir|
    requires x + rest == lead + (y + rest')
    ensures forall t :: 0 <= t < |lead| ==> dir[t] == lead[t]
    ensures forall t :: |lead| <= t < |dir| - 1 ==> dir[t] == dir[t - |lead|]
    ensures |x| == |dir| && x[|dir| - 1] == dir[|dir| - 1 - |lead|]
    ensures |y| == |dir| && rest == y[|dir| - |lead|..] + rest'
  {
    InShape(dir, x);
    InShape(dir, y);
    hide IsIn;
    var n, m := |dir|, |lead|;
    var all := x + rest;
    assert rest == all[n..] && all[n..] == (y + rest')[n - m..];
    assert x == all[..n] && all[..n] == lead + y[..n - m];
  }

  /** The first list begins with a reference in the directory where the second has plain paths. */
  lemma HeadsDiffer(storeDir: string, a: seq<string>, b: seq<string>) returns (r: string)
    requires References(storeDir, a) && References(storeDir, b) && ',' in storeDir
    requires a != [] && b != [] && ',' in a[0] && ',' !in b[0] && Pieces(a) == Pieces(b)
    ensures Ambiguous(storeDir, r)
  {
    var dir, x := Split(storeDir, ','), Split(a[0], ',');
    var n := |dir|;
    SplitComma(storeDir);
    NotPlainIsIn(storeDir, a[0]);
    r :| ',' !in r && !IsAbs(r) && x == In(dir, r);
    SplitIn(storeDir, r);
    var m := Leading(b, n);
    hide Split, StrLe, Sorted, References, ReadsAsList;
    LeadingPieces(b, m);
    if m == n {
      assert x == Pieces(a)[..n] == b[..n];
      LeadReadsAsList(storeDir, b, n);
    } else {
      assert IsIn(dir, x);
      LeadEnds(storeDir, dir, a, b, m);
    }
  }

  /** The plain paths of the second list end within the first reference of the other list. */
  lemma LeadMeets(storeDir: string, dir: seq<string>, a: seq<string>, b: seq<string>, m: nat)
    requires References(storeDir, b) && dir == Split(storeDir, ',')
    requires a != [] && IsIn(dir, Split(a[0], ',')) && 1 <= m < |dir| && m <= |b|
    requires (m < |b| ==> ',' in b[m]) && Pieces(a) == b[..m] + Pieces(b[m..])
    ensures m < |b| && IsIn(dir, Split(b[m], ','))
    ensures Split(a[0], ',') + Pieces(a[1..]) == b[..m] + (Split(b[m], ',') + Pieces(b[m + 1..]))
  {
    hide Split, StrLe, IsIn, Sorted;
    InShape(dir, Split(a[0], ','));
    assert |Pieces(a)| >= |dir|;
    assert m < |b|;
    assert b[m] in b && IsReference(storeDir, b[m]);
    NotPlainIsIn(storeDir, b[m]);
    assert b[m..][1..] == b[m + 1..];
  }

  lemma LeadIsLow(storeDir: string, dir: seq<string>, b: seq<string>, m: nat)
    requires References(storeDir, b) && ',' in storeDir && dir == Split(storeDir, ',')
    requires 1 <= m < |dir| && m < |b| && (forall i :: 0 <= i < m ==> ',' !in b[i]) && IsIn(dir, Split(b[m], ','))
    requires forall t :: 0 <= t < m ==> dir[t] == b[..m][t]
    requires forall t :: m <= t < |dir| - 1 ==> dir[t] == dir[t - m]
    ensures forall t :: 0 <= t < |dir| - 1 ==> StrLe(dir[t], storeDir)
    ensures IsAbs(dir[0])
  {
    hide Split, StrLe, IsIn, IsAbs;
    forall t | 0 <= t < |dir| - 1
      ensures StrLe(dir[t], storeDir)
    {
      forall s | 0 <= s < m
        ensures StrLe(dir[s], storeDir)
      {
        LeadIsBelow(storeDir, b, m, s);
        assert dir[s] == b[..m][s] == b[s];
      }
      Periodic(storeDir, dir, m, t);
    }
    assert b[0] in b && IsReference(storeDir, b[0]);
    PlainIsAbsolute(storeDir, b[0]);
  }

  lemma OneStepIsSame(dir: seq<string>)
    requires forall t :: 1 <= t < |dir| - 1 ==> dir[t] == dir[t - 1]
    ensures AllSame(dir)
  {
    forall t | 0 <= t < |dir| - 1
      ensures dir[t] == dir[0]
    {
      StepsOfOne(dir, t);
    }
  }

  /** After them neither list could go on, unless the directory repeats one path. */
  lemma LeadRepeats(storeDir: string, dir: seq<string>, a: seq<string>, b: seq<string>, m: nat)
    requires References(storeDir, a) && References(storeDir, b) && ',' in storeDir && dir == Split(storeDir, ',')
    requires a != [] && IsIn(dir, Split(a[0], ',')) && 1 <= m < |dir| && m < |b| && IsIn(dir, Split(b[m], ','))
    requires forall t :: 0 <= t < |dir| - 1 ==> StrLe(dir[t], storeDir)
    requires forall t :: m <= t < |dir| - 1 ==> dir[t] == dir[t - m]
    requires |Split(b[m], ',')| == |dir|
    requires Pieces(a[1..]) == Split(b[m], ',')[|dir| - m..] + Pieces(b[m + 1..])
    ensures AllSame(dir)
  {
    hide *;
    if m == 1 {
      OneStepIsSame(dir);
    } else if !AllSame(dir) {
      RestIsAfter(storeDir, a, 0);
      RestIsAfter(storeDir, b, m);
      NeverInStep(storeDir, dir, a[1..], b[m + 1..], Split(b[m], ','), m);
    }
  }

  lemma LeadEnds(storeDir: string, dir: seq<string>, a: seq<string>, b: seq<string>, m: nat)
    requires References(storeDir, a) && References(storeDir, b) && ',' in storeDir && dir == Split(storeDir, ',')
    requires a != [] && IsIn(dir, Split(a[0], ',')) && 1 <= m < |dir| && m <= |b|
    requires (forall i :: 0 <= i < m ==> ',' !in b[i]) && (m < |b| ==> ',' in b[m])
    requires Pieces(a) == b[..m] + Pieces(b[m..])
    ensures ReadsAsList(Split(a[0], ','))
  {
    hide *;
    var x := Split(a[0], ',');
    LeadMeets(storeDir, dir, a, b, m);
    Overlap(dir, x, Pieces(a[1..]), b[..m], Split(b[m], ','), Pieces(b[m + 1..]));
    LeadIsLow(storeDir, dir, b, m);
    LeadRepeats(storeDir, dir, a, b, m);
    InShape(dir, x);
    SameAsHead(dir, x, |dir| - 1 - m);
  }

  /** A reference all of whose pieces are the same absolute path reads as a list. */
  lemma SameAsHead(dir: seq<string>, x: seq<string>, t: nat)
    requires AllSame(dir) && |dir| > 1 && |x| == |dir| && forall t :: 0 <= t < |dir| - 1 ==> x[t] == dir[t]
    requires t < |dir| - 1 && x[|dir| - 1] == dir[t] && IsAbs(dir[0])
    ensures ReadsAsList(x)
  {
    assert forall i :: 0 <= i < |x| ==> x[i] == dir[0];
    StrLeTotal(dir[0], dir[0]);
  }

  lemma PiecesNone(list: seq<string>)
    ensures Pieces(list) == [] <==> list == []
  {
  }

  /** References that begin alike, both plain or both in the directory, are the same. */
  lemma SameHeads(storeDir: string, a: seq<string>, b: seq<string>)
    requires References(storeDir, a) && References(storeDir, b) && a != [] && b != [] && Pieces(a) == Pieces(b)
    requires ',' in a[0] <==> ',' in b[0]
    ensures a[0] == b[0] && Pieces(a[1..]) == Pieces(b[1..])
  {
    hide Split, StrLe, IsIn, Sorted;
    var x, y := Split(a[0], ','), Split(b[0], ',');
    assert a[0] in a && b[0] in b;
    if ',' in a[0] {
      NotPlainIsIn(storeDir, a[0]);
      NotPlainIsIn(storeDir, b[0]);
      InShape(Split(storeDir, ','), x);
      InShape(Split(storeDir, ','), y);
    } else {
      SplitPlain(a[0]);
      SplitPlain(b[0]);
    }
    assert |x| == |y| && x == Pieces(a)[..|x|] == y;
    SameSplit(a[0], b[0]);
    assert Pieces(a[1..]) == Pieces(a)[|x|..] == Pieces(b[1..]);
  }

  lemma TailIsReferences(storeDir: string, list: seq<string>)
    requires References(storeDir, list) && list != []
    ensures References(storeDir, list[1..])
  {
  }

  /** Two different lists with the same pieces betray an ambiguous reference. */
  lemma {:induction false} ListsDiffer(storeDir: string, a: seq<string>, b: seq<string>) returns (r: string)
    requires References(storeDir, a) && References(storeDir, b) && ',' in storeDir
    requires a != b && Pieces(a) == Pieces(b)
    ensures Ambiguous(storeDir, r)
    decreases |a|
  {
    hide Pieces, References, Ambiguous;
    PiecesNone(a);
    PiecesNone(b);
    if ',' in a[0] && ',' !in b[0] {
      r := HeadsDiffer(storeDir, a, b);
    } else if ',' !in a[0] && ',' in b[0] {
      r := HeadsDiffer(storeDir, b, a);
    } else {
      SameHeads(storeDir, a, b);
      TailIsReferences(storeDir, a);
      TailIsReferences(storeDir, b);
      assert a == [a[0]] + a[1..] && b == [b[0]] + b[1..];
      r := ListsDiffer(storeDir, a[1..], b[1..]);
    }
  }

  // ---- directories with an ambiguous reference -------------------------------------------------

  /**
   Several absolute paths in order, the last of which, perhaps empty, leaves room for
   a reference: what is written after its slash can be as large as needed.
   */
  ghost predicate AmbiguousDir(storeDir: string)
  {
    var dir := Split(storeDir, ',');
    var n := |dir|;
    && n > 1 && (forall t :: 0 <= t < n - 1 ==> IsAbs(dir[t])) && Sorted(dir[..n - 1])
    && (dir[n - 1] == "" || IsAbs(dir[n - 1]))
    && (StrLe(dir[n - 2], dir[n - 1] + "/") || dir[n - 1] + "/" <= dir[n - 2])
  }

  lemma {:induction false} BelowLonger(c: string, x: string, r: string)
    requires StrLe(c, x + r)
    ensures StrLe(c, x) || x <= c
  {
    if c != "" && x != "" && c[0] == x[0] {
      assert (x + r)[1..] == x[1..] + r;
      BelowLonger(c[1..], x[1..], r);
      assert c == [c[0]] + c[1..] && x == [x[0]] + x[1..];
    }
  }

  lemma {:induction false} SamePrefix(x: string, a: string, b: string)
    requires StrLe(a, b)
    ensures StrLe(x + a, x + b)
  {
    if x == "" {
      assert x + a == a && x + b == b;
    } else {
      assert (x + a)[1..] == x[1..] + a && (x + b)[1..] == x[1..] + b;
      SamePrefix(x[1..], a, b);
    }
  }

  /** A reference that sorts after this path when written behind the slash. */
  lemma Beyond(c: string, x: string) returns (r: string)
    requires ',' !in c && (StrLe(c, x) || x <= c)
    ensures ',' !in r && !IsAbs(r) && StrLe(c, x + r)
  {
    if StrLe(c, x) {
      r := "";
      assert x + r == x;
    } else {
      var rest := c[|x|..];
      assert c == x + rest;
      r := if IsAbs(rest) then "0" else rest;
      StrLeTotal(rest, rest);
      SamePrefix(x, rest, r);
    }
  }

  lemma SortedWithLast(s: seq<string>, x: string)
    requires s != [] && Sorted(s) && StrLe(s[|s| - 1], x)
    ensures Sorted(s + [x])
  {
    forall i | 0 <= i < |s|
      ensures StrLe(s[i], x)
    {
      if i < |s| - 1 {
        StrLeTransitive(s[i], s[|s| - 1], x);
      }
    }
  }

  lemma AmbiguousIn(storeDir: string, r: string)
    requires Ambiguous(storeDir, r)
    ensures AmbiguousDir(storeDir)
  {
    SplitIn(storeDir, r);
    var dir := Split(storeDir, ',');
    hide Split, StrLe, Sorted;
    var x, n := In(dir, r), |dir|;
    assert x[..n - 1] == dir[..n - 1];
    ListIn(dir, r, dir[n - 1] + "/");
  }

  lemma ListIn(dir: seq<string>, r: string, last: string)
    requires |dir| > 1 && ReadsAsList(In(dir, r)) && last == dir[|dir| - 1] + "/"
    ensures forall t :: 0 <= t < |dir| - 1 ==> IsAbs(dir[t])
    ensures Sorted(dir[..|dir| - 1])
    ensures dir[|dir| - 1] == "" || IsAbs(dir[|dir| - 1])
    ensures StrLe(dir[|dir| - 2], last) || last <= dir[|dir| - 2]
  {
    hide StrLe;
    var x, n := In(dir, r), |dir|;
    assert forall t :: 0 <= t < n - 1 ==> dir[t] == x[t] && x[t] in x;
    assert x[n - 1] == last + r && x[n - 1] in x;
    BelowLonger(dir[n - 2], last, r);
  }

  lemma SomethingAmbiguous(storeDir: string) returns (r: string)
    requires AmbiguousDir(storeDir)
    ensures Ambiguous(storeDir, r)
  {
    var dir := Split(storeDir, ',');
    var n := |dir|;
    PieceOfDir(storeDir, n - 2);
    hide Split, StrLe;
    r := Beyond(dir[n - 2], dir[n - 1] + "/");
    SplitIn(storeDir, r);
    SortedWithLast(dir[..n - 1], dir[n - 1] + "/" + r);
  }

  // ---- which lists are told apart ----------------------------------------------------------------

  lemma SortedReferences(storeDir: string, refs: seq<string>)
    requires Plain(refs)
    ensures References(storeDir, Sort(AbsoluteAll(storeDir, refs)))
    ensures "" !in Sort(AbsoluteAll(storeDir, refs))
  {
    hide Sort, IsReference, Sorted, AbsoluteAll;
    var list := Sort(AbsoluteAll(storeDir, refs));
    SortSorted(AbsoluteAll(storeDir, refs));
    forall x | x in list
      ensures x != "" && IsReference(storeDir, x)
    {
      AbsoluteIsReference(storeDir, refs, x);
    }
  }

  lemma JoinedNonEmpty(pieces: seq<string>)
    requires "" !in pieces
    ensures Join(pieces, ",") == "" <==> pieces == []
  {
    if pieces != [] {
      assert pieces[|pieces| - 1] in pieces;
    }
  }

  lemma SameText(a: seq<string>, b: seq<string>)
    requires "" !in a && "" !in b && Join(a, ",") == Join(b, ",")
    ensures Pieces(a) == Pieces(b)
  {
    hide Split, Join;
    JoinedNonEmpty(a);
    JoinedNonEmpty(b);
    if a != [] && b != [] {
      SplitJoined(a);
      SplitJoined(b);
    }
  }

  lemma AllPlainPieces(list: seq<string>)
    requires forall x :: x in list ==> ',' !in x
    ensures Pieces(list) == list
  {
    LeadingPieces(list, |list|);
    assert list[|list|..] == [];
  }

  /** No reference of the list holds a comma, even with the directory before it. */
  ghost predicate CommaFree(storeDir: string, refs: seq<string>)
  {
    forall r :: r in AbsoluteAll(storeDir, refs) ==> ',' !in r
  }

  lemma CommaFreeToldApart(storeDir: string, refs: seq<string>, refs': seq<string>)
    requires Plain(refs) && Plain(refs') && CommaFree(storeDir, refs) && CommaFree(storeDir, refs')
    requires Joined(storeDir, refs) == Joined(storeDir, refs')
    ensures multiset(AbsoluteAll(storeDir, refs)) == multiset(AbsoluteAll(storeDir, refs'))
  {
    var a, a' := AbsoluteAll(storeDir, refs), AbsoluteAll(storeDir, refs');
    SortedReferences(storeDir, refs);
    SortedReferences(storeDir, refs');
    SameText(Sort(a), Sort(a'));
    forall x
      ensures (x in Sort(a) <==> x in a) && (x in Sort(a') <==> x in a')
    {
      SortElements(a, x);
      SortElements(a', x);
    }
    AllPlainPieces(Sort(a));
    AllPlainPieces(Sort(a'));
    SortCanonical(a, a');
  }

  lemma NoCommaInDir(storeDir: string, refs: seq<string>)
    requires Plain(refs) && ',' !in storeDir
    ensures CommaFree(storeDir, refs)
  {
    forall x | x in AbsoluteAll(storeDir, refs)
      ensures ',' !in x
    {
      var i :| 0 <= i < |refs| && AbsoluteAll(storeDir, refs)[i] == x;
      assert refs[i] in refs;
    }
  }

  lemma PlainToldApart(storeDir: string, refs: seq<string>, refs': seq<string>)
    requires Plain(refs) && Plain(refs') && !AmbiguousDir(storeDir)
    requires Joined(storeDir, refs) == Joined(storeDir, refs')
    ensures multiset(AbsoluteAll(storeDir, refs)) == multiset(AbsoluteAll(storeDir, refs'))
  {
    hide AmbiguousDir, Ambiguous, References, Sort, AbsoluteAll, Split, Join, Plain, CommaFree;
    if ',' in storeDir {
      var a, a' := AbsoluteAll(storeDir, refs), AbsoluteAll(storeDir, refs');
      SortedReferences(storeDir, refs);
      SortedReferences(storeDir, refs');
      SameText(Sort(a), Sort(a'));
      if Sort(a) != Sort(a') {
        var r := ListsDiffer(storeDir, Sort(a), Sort(a'));
        AmbiguousIn(storeDir, r);
      }
      SortCanonical(a, a');
    } else {
      NoCommaInDir(storeDir, refs);
      NoCommaInDir(storeDir, refs');
      CommaFreeToldApart(storeDir, refs, refs');
    }
  }

  ghost predicate ToldApart(storeDir: string, refs: seq<string>, refs': seq<string>)
  {
    Plain(refs) && Plain(refs') && Joined(storeDir, refs) == Joined(storeDir, refs') ==>
      multiset(AbsoluteAll(storeDir, refs)) == multiset(AbsoluteAll(storeDir, refs'))
  }

  /**
   In this directory any two lists of references written without commas are told
   apart by their text, if and only if the directory leaves no room for an ambiguous one.
   */
  lemma ToldApartIff(storeDir: string)
    ensures (forall refs, refs' :: ToldApart(storeDir, refs, refs')) <==> !AmbiguousDir(storeDir)
  {
    hide AmbiguousDir, Joined, AbsoluteAll, Plain, Split;
    if AmbiguousDir(storeDir) {
      var r := SomethingAmbiguous(storeDir);
      AmbiguousCollides(storeDir, r);
      assert !ToldApart(storeDir, [r], Split(storeDir + "/" + r, ','));
    } else {
      forall refs, refs'
        ensures ToldApart(storeDir, refs, refs')
      {
        if Plain(refs) && Plain(refs') && Joined(storeDir, refs) == Joined(storeDir, refs') {
          PlainToldApart(storeDir, refs, refs');
        }
      }
    }
  }
}
