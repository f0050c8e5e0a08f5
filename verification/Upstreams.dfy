/**
 Several upstream caches queried as one, the filter on build outputs, and when a
 reference is left dangling: a failing upstream only costs uploads.
 */
module Upstreams {
  import opened Sequences
  import opened Reachability
  import opened ReferenceWalk
  import opened PreparedClosure
  import BatchQuery

  /** What one upstream holds. */
  type Member = Hash -> bool

  predicate AnyAnswers(members: seq<Member>, fails: nat -> bool, h: Hash)
  {
    exists i :: 0 <= i < |members| && !fails(i) && members[i](h)
  }

  /** The hashes held by a member whose queries did not fail. */
  function GroupAnswer(members: seq<Member>, fails: nat -> bool, hashes: set<Hash>): map<Hash, bool>
  {
    map h | h in hashes && AnyAnswers(members, fails, h) :: true
  }

  function Hits(reply: map<Hash, bool>): map<Hash, bool>
  {
    map h | h in reply && reply[h] :: true
  }

  /** Keeps the hits of one member's reply, in any order. */
  method MergeReply(merged: map<Hash, bool>, reply: map<Hash, bool>) returns (r: map<Hash, bool>)
    ensures r == merged + Hits(reply)
  {
    r := merged;
    var todo := reply.Keys;
    while todo != {}
      invariant todo <= reply.Keys
      invariant r == merged + map h | h in reply && h !in todo && reply[h] :: true
    {
      var h :| h in todo;
      if reply[h] {
        r := r[h := true];
      }
      todo := todo - {h};
    }
  }

  /**
   Queries every member and merges the hits in whatever order the members answer;
   a member that fails contributes none, and one that answers does so exactly.
   */
  method GroupExistsBatch(members: seq<Member>, fails: nat -> bool, hashes: seq<Hash>) returns (merged: map<Hash, bool>)
    ensures merged == GroupAnswer(members, fails, Elems(hashes))
    ensures forall h :: h in merged <==> h in hashes && exists i :: 0 <= i < |members| && !fails(i) && members[i](h)
    ensures forall h :: h in merged ==> merged[h]
  {
    merged := map[];
    GroupAnswers(members, fails, hashes);
    NoHits(members, fails, hashes);
    hide *;
    if |members| == 0 || |hashes| == 0 {
      return;
    }
    ghost var all := Indices(|members|);
    var pending := Indices(|members|);
    assert all - pending == {};
    while pending != {}
      invariant pending <= all && merged == HitsOf(members, fails, all - pending, hashes)
    {
      var i :| i in pending;
      HitsOfOneMore(members, fails, all - pending, hashes, i);
      if !fails(i) {
        merged := MergeReply(merged, BatchQuery.ExactReply(members[i], hashes));
      }
      assert all - pending + {i} == all - (pending - {i});
      pending := pending - {i};
    }
    assert all - {} == all;
    HitsOfAll(members, fails, hashes);
  }

  lemma NoHits(members: seq<Member>, fails: nat -> bool, hashes: seq<Hash>)
    ensures |members| == 0 || |hashes| == 0 ==> GroupAnswer(members, fails, Elems(hashes)) == map[]
    ensures HitsOf(members, fails, {}, hashes) == map[]
  {
  }

  lemma GroupAnswers(members: seq<Member>, fails: nat -> bool, hashes: seq<Hash>)
    ensures var r := GroupAnswer(members, fails, Elems(hashes));
      && (forall h :: h in r <==> h in hashes && exists i :: 0 <= i < |members| && !fails(i) && members[i](h))
      && forall h :: h in r ==> r[h]
  {
  }

  ghost predicate HitOf(members: seq<Member>, fails: nat -> bool, answered: set<nat>, h: Hash)
  {
    exists i :: i in answered && i < |members| && !fails(i) && members[i](h)
  }

  /** The hits of the members that answered so far. */
  ghost function HitsOf(members: seq<Member>, fails: nat -> bool, answered: set<nat>,
                        hashes: seq<Hash>): map<Hash, bool>
  {
    map h | h in hashes && HitOf(members, fails, answered, h) :: true
  }

  lemma HitsOfOneMore(members: seq<Member>, fails: nat -> bool, answered: set<nat>, hashes: seq<Hash>, i: nat)
    requires i < |members|
    ensures HitsOf(members, fails, answered + {i}, hashes) ==
            HitsOf(members, fails, answered, hashes) +
            if fails(i) then map[] else Hits(BatchQuery.ExactReply(members[i], hashes))
  {
    forall h
      ensures HitOf(members, fails, answered + {i}, h) <==>
        HitOf(members, fails, answered, h) || (!fails(i) && members[i](h))
    {
      if !fails(i) && members[i](h) {
        assert i in answered + {i};
      }
    }
  }

  lemma HitsOfAll(members: seq<Member>, fails: nat -> bool, hashes: seq<Hash>)
    ensures HitsOf(members, fails, Indices(|members|), hashes) == GroupAnswer(members, fails, Elems(hashes))
  {
    forall h
      ensures HitOf(members, fails, Indices(|members|), h) <==> AnyAnswers(members, fails, h)
    {
    }
  }

  /** The build outputs no answering member holds, and those whose name does not parse. */
  function Unserved(st: Store, roots: seq<Path>, answer: map<Hash, bool>): seq<Path>
  {
    KeepIn(roots, set p | p in roots && !Present(st, answer, p))
  }

  function RootHashes(st: Store, roots: seq<Path>): set<Hash>
  {
    set p | p in roots && st.hashOf(p).Some? :: st.hashOf(p).value
  }

  /** Some member that did not fail holds the hash of this path. */
  ghost predicate HeldByAnswering(st: Store, members: seq<Member>, fails: nat -> bool, p: Path)
  {
    st.hashOf(p).Some? && exists i :: 0 <= i < |members| && !fails(i) && members[i](st.hashOf(p).value)
  }

  /**
   Kept are the outputs no answering member holds, at the same places as before, and
   skipped counts the places of the others.
   */
  ghost predicate Filtered(st: Store, roots: seq<Path>, members: seq<Member>, fails: nat -> bool, kept: seq<Path>,
                           skipped: nat)
  {
    && (exists at :: Picks(roots, at, kept)
          && forall i: nat :: i in at <==> i < |roots| && !HeldByAnswering(st, members, fails, roots[i]))
    && skipped == |set i | i in Indices(|roots|) && HeldByAnswering(st, members, fails, roots[i])|
  }

  lemma PresentIsHeldByAnswering(st: Store, roots: seq<Path>, members: seq<Member>, fails: nat -> bool, p: Path)
    requires p in roots
    ensures Present(st, GroupAnswer(members, fails, RootHashes(st, roots)), p) <==>
            HeldByAnswering(st, members, fails, p)
  {
  }

  /** Where the paths of keep stand are the places kept. */
  lemma FilteredBy(st: Store, roots: seq<Path>, members: seq<Member>, fails: nat -> bool, keep: set<Path>,
                   at: seq<nat>, kept: seq<Path>, skipped: nat)
    requires Picks(roots, at, kept) && forall i: nat :: i in at <==> i < |roots| && roots[i] in keep
    requires forall p :: p in roots ==> (p in keep <==> !HeldByAnswering(st, members, fails, p))
    requires skipped + |kept| == |roots|
    ensures Filtered(st, roots, members, fails, kept, skipped)
  {
    PicksLeave(roots, at, kept);
    hide HeldByAnswering, Picks;
    assert forall i: nat :: i < |roots| ==> roots[i] in roots;
    assert Indices(|roots|) - Elems(at) ==
      set i | i in Indices(|roots|) && HeldByAnswering(st, members, fails, roots[i]);
  }

  lemma UnservedIsFiltered(st: Store, roots: seq<Path>, members: seq<Member>, fails: nat -> bool, skipped: nat)
    requires skipped + |Unserved(st, roots, GroupAnswer(members, fails, RootHashes(st, roots)))| == |roots|
    ensures Filtered(st, roots, members, fails, Unserved(st, roots, GroupAnswer(members, fails, RootHashes(st, roots))),
                     skipped)
  {
    var answer := GroupAnswer(members, fails, RootHashes(st, roots));
    var kept, keep := Unserved(st, roots, answer), set p | p in roots && !Present(st, answer, p);
    hide HeldByAnswering, Present, KeepIn, GroupAnswer, RootHashes, Filtered, Picks;
    var at := KeepInPicks(roots, keep);
    forall p | p in roots
      ensures p in keep <==> !HeldByAnswering(st, members, fails, p)
    {
      PresentIsHeldByAnswering(st, roots, members, fails, p);
    }
    FilteredBy(st, roots, members, fails, keep, at, kept, skipped);
  }

  /** Drops the build outputs an upstream already serves; without upstreams keeps everything. */
  method FilterRoots(st: Store, roots: seq<Path>, checker: Option<seq<Member>>, fails: nat -> bool)
    returns (kept: seq<Path>, skipped: nat)
    ensures checker.None? ==> kept == roots && skipped == 0
    ensures checker.Some? ==> Filtered(st, roots, checker.value, fails, kept, skipped)
    ensures checker.Some? ==> kept == Unserved(st, roots, GroupAnswer(checker.value, fails, RootHashes(st, roots)))
    ensures skipped + |kept| == |roots|
  {
    if checker.None? || |roots| == 0 {
      if checker.Some? {
        UnservedIsFiltered(st, roots, checker.value, fails, 0);
      }
      return roots, 0;
    }
    var hashByPath: map<Path, Hash> := map[];
    var hashes: seq<Hash> := [];
    for i := 0 to |roots|
      invariant hashByPath == map p | p in roots[..i] && st.hashOf(p).Some? :: st.hashOf(p).value
      invariant Elems(hashes) == RootHashes(st, roots[..i])
    {
      TakeNext(roots, i);
      var hash := st.hashOf(roots[i]);
      if hash.Some? {
        assert Elems(hashes + [hash.value]) == Elems(hashes) + {hash.value};
        hashByPath := hashByPath[roots[i] := hash.value];
        hashes := hashes + [hash.value];
      }
    }
    assert roots[..|roots|] == roots;
    var exists_ := GroupExistsBatch(checker.value, fails, hashes);
    kept, skipped := [], 0;
    ghost var keep := set p | p in roots && !Present(st, exists_, p);
    for i := 0 to |roots|
      invariant kept == KeepIn(roots[..i], keep)
      invariant skipped + |kept| == i
    {
      TakeNext(roots, i);
      KeepInAppend(roots[..i], roots[i], keep);
      if roots[i] in hashByPath && hashByPath[roots[i]] in exists_ && exists_[hashByPath[roots[i]]] {
        skipped := skipped + 1;
      } else {
        kept := kept + [roots[i]];
      }
    }
    assert kept == Unserved(st, roots, exists_);
    hide *;
    UnservedIsFiltered(st, roots, checker.value, fails, skipped);
  }

  // ---- no dangling references ---------------------------------------------------

  ghost predicate HeldUpstream(st: Store, members: seq<Member>, p: Path)
  {
    st.hashOf(p).Some? && exists i :: 0 <= i < |members| && members[i](st.hashOf(p).value)
  }

  /** An upstream that holds a path holds its references. */
  ghost predicate ReferenceClosed(st: Store, universe: set<Path>, member: Member)
  {
    forall p, q :: p in universe && st.hashOf(p).Some? && member(st.hashOf(p).value) && q in Refs(st, p) ==>
      st.hashOf(q).Some? && member(st.hashOf(q).value)
  }

  /** Every level of the walk is answered by the group, with any members failing at any level. */
  ghost predicate AnsweredByGroup(st: Store, members: seq<Member>, fails: nat -> (nat -> bool))
  {
    forall d, hashes :: st.upstream(d, hashes) == GroupAnswer(members, fails(d), hashes)
  }

  ghost function AllReferences(st: Store, universe: set<Path>): Links
  {
    map p | p in universe :: Refs(st, p)
  }

  lemma PresentIsHeld(st: Store, members: seq<Member>, fails: nat -> bool, hashes: set<Hash>, p: Path)
    requires Present(st, GroupAnswer(members, fails, hashes), p)
    ensures HeldUpstream(st, members, p)
  {
    var h := st.hashOf(p).value;
    assert AnyAnswers(members, fails, h);
    var i :| 0 <= i < |members| && !fails(i) && members[i](h);
    assert members[i](st.hashOf(p).value);
  }

  lemma NotMissingIsPresent(st: Store, g: Graph, roots: set<Path>, p: Path, q: Path)
    requires PreparedFrom(st, g, roots) && p in g && q in Refs(st, p) && st.hashOf(q).Some?
    ensures q in g || Present(st, LevelAnswer(st, g[p].depth, AtDepth(g, g[p].depth)), q)
  {
    hide LevelAnswer, AtDepth, KeepIn, Absent;
  }

  /** A reference of a prepared path is prepared too or really held by an upstream. */
  lemma PreparedReferences(st: Store, g: Graph, roots: set<Path>, members: seq<Member>, fails: nat -> (nat -> bool),
                           p: Path, q: Path)
    requires PreparedFrom(st, g, roots) && AnsweredByGroup(st, members, fails)
    requires p in g && q in Refs(st, p) && st.hashOf(q).Some?
    ensures q in g || HeldUpstream(st, members, q)
  {
    var d := g[p].depth;
    var level := AtDepth(g, d);
    NotMissingIsPresent(st, g, roots, p, q);
    hide PreparedFrom, AtDepth, LevelHashes, Present, HeldUpstream, GroupAnswer;
    if q !in g {
      LevelIsAnswered(st, members, fails, d, level);
      PresentIsHeld(st, members, fails(d), LevelHashes(st, level), q);
    }
  }

  lemma LevelIsAnswered(st: Store, members: seq<Member>, fails: nat -> (nat -> bool), d: nat, level: set<Path>)
    requires AnsweredByGroup(st, members, fails)
    ensures LevelAnswer(st, d, level) == GroupAnswer(members, fails(d), LevelHashes(st, level))
  {
    hide LevelHashes;
  }

  /** The build outputs that are left to push. */
  function Kept(st: Store, outputs: seq<Path>, members: seq<Member>, rootFails: nat -> bool): seq<Path>
  {
    Unserved(st, outputs, GroupAnswer(members, rootFails, RootHashes(st, outputs)))
  }

  /**
   g is what is prepared of these build outputs when the same upstreams, each closed
   under references, are asked by the filter and at every level of the walk.
   */
  ghost predicate PreparedKept(st: Store, universe: set<Path>, members: seq<Member>, rootFails: nat -> bool,
                               fails: nat -> (nat -> bool), outputs: seq<Path>, g: Graph)
  {
    && FiniteStore(st, universe) && Elems(outputs) <= universe
    && AnsweredByGroup(st, members, fails)
    && (forall i :: 0 <= i < |members| ==> ReferenceClosed(st, universe, members[i]))
    && IsPrepared(st, universe, Kept(st, outputs, members, rootFails), g)
  }

  ghost predicate Covered(st: Store, members: seq<Member>, g: Graph, p: Path)
  {
    p in g || HeldUpstream(st, members, p)
  }

  /** Everything the build outputs refer to, directly or not, was prepared or is really held by some upstream. */
  ghost predicate NothingDangles(st: Store, universe: set<Path>, members: seq<Member>, outputs: seq<Path>, g: Graph)
  {
    forall o, q :: o in outputs && Reaches(AllReferences(st, universe), o, q) ==> Covered(st, members, g, q)
  }

  /** Every reference of a prepared path whose name does not parse was prepared too. */
  ghost predicate OddNamesPrepared(st: Store, g: Graph)
  {
    forall p, q :: p in g && q in Refs(st, p) && st.hashOf(q).None? ==> q in g
  }

  lemma KeptArePrepared(st: Store, universe: set<Path>, members: seq<Member>, rootFails: nat -> bool,
                        fails: nat -> (nat -> bool), outputs: seq<Path>, g: Graph)
    requires PreparedKept(st, universe, members, rootFails, fails, outputs, g)
    ensures PreparedFrom(st, g, Elems(Kept(st, outputs, members, rootFails)))
    ensures forall p :: p in Kept(st, outputs, members, rootFails) ==> p in g
  {
    var kept := Kept(st, outputs, members, rootFails);
    hide IsPrepared, Kept;
    PreparedIsLayered(st, universe, kept, g);
    assert forall p :: p in kept ==> p in AtDepth(g, 0);
  }

  /** If odd names are prepared, the covered paths are closed under references. */
  lemma CoveredIsClosed(st: Store, universe: set<Path>, members: seq<Member>, rootFails: nat -> bool,
                        fails: nat -> (nat -> bool), outputs: seq<Path>, g: Graph, p: Path, q: Path)
    requires PreparedKept(st, universe, members, rootFails, fails, outputs, g) && OddNamesPrepared(st, g)
    requires p in universe && q in Refs(st, p) && Covered(st, members, g, p)
    ensures q in universe && Covered(st, members, g, q)
  {
    hide IsPrepared, Kept;
    if p in g && st.hashOf(q).Some? {
      KeptArePrepared(st, universe, members, rootFails, fails, outputs, g);
      PreparedReferences(st, g, Elems(Kept(st, outputs, members, rootFails)), members, fails, p, q);
    } else if p !in g {
      var i :| 0 <= i < |members| && members[i](st.hashOf(p).value);
      assert members[i](st.hashOf(q).value);
    }
  }

  lemma OutputsCovered(st: Store, members: seq<Member>, rootFails: nat -> bool, outputs: seq<Path>, g: Graph, p: Path)
    requires p in outputs && forall r :: r in Kept(st, outputs, members, rootFails) ==> r in g
    ensures Covered(st, members, g, p)
  {
    var answer := GroupAnswer(members, rootFails, RootHashes(st, outputs));
    if Present(st, answer, p) {
      PresentIsHeld(st, members, rootFails, RootHashes(st, outputs), p);
    } else {
      assert p in Kept(st, outputs, members, rootFails);
    }
  }

  lemma NothingDanglesIf(st: Store, universe: set<Path>, members: seq<Member>, rootFails: nat -> bool,
                         fails: nat -> (nat -> bool), outputs: seq<Path>, g: Graph)
    requires PreparedKept(st, universe, members, rootFails, fails, outputs, g) && OddNamesPrepared(st, g)
    ensures NothingDangles(st, universe, members, outputs, g)
  {
    KeptArePrepared(st, universe, members, rootFails, fails, outputs, g);
    assert forall o :: o in outputs ==> o in Elems(outputs) && o in universe;
    hide PreparedKept, PreparedFrom, OddNamesPrepared, Covered, Kept;
    var S := set p | p in universe && Covered(st, members, g, p);
    forall o, q | o in outputs && Reaches(AllReferences(st, universe), o, q)
      ensures Covered(st, members, g, q)
    {
      OutputsCovered(st, members, rootFails, outputs, g, o);
      forall x, y | x in S && y in Refs(st, x)
        ensures y in S
      {
        CoveredIsClosed(st, universe, members, rootFails, fails, outputs, g, x, y);
      }
      var n: nat :| ReachIn(AllReferences(st, universe), o, q, n);
      ClosedSetHoldsReach(AllReferences(st, universe), S, o, q, n);
    }
  }

  /** Every prepared path is reached from a build output, and so is what it refers to. */
  lemma PreparedIsReferred(st: Store, universe: set<Path>, roots: seq<Path>, g: Graph, p: Path, q: Path)
    returns (r: Path)
    requires IsPrepared(st, universe, roots, g) && p in g && q in Refs(st, p)
    ensures r in roots && Reaches(AllReferences(st, universe), r, q)
  {
    var U := AllReferences(st, universe);
    r := HangsFromRoot(st, universe, roots, g, p);
    var n: nat :| ReachIn(LinksOf(g), r, p, n);
    LinksAreReferences(st, universe, roots, g);
    hide IsPrepared, Refs;
    SameEdgesReach(LinksOf(g), U, r, p, n);
    ReachInThenEdge(U, r, p, q, n);
  }

  lemma LinksAreReferences(st: Store, universe: set<Path>, roots: seq<Path>, g: Graph)
    requires IsPrepared(st, universe, roots, g)
    ensures g.Keys <= universe
    ensures forall p, q :: p in g && q in g[p].links ==> q in Refs(st, p)
  {
    PreparedInStore(st, universe, 0, roots, {});
    assert g.Keys == Prepared(st, universe, roots).forest.Keys;
    PreparedIsLayered(st, universe, roots, g);
    hide IsPrepared, AtDepth, MissingAt;
    forall p, q | p in g && q in g[p].links
      ensures q in Refs(st, p)
    {
      LinkIffOneDeeper(g, p, q);
      assert g[p].missing == MissingAt(st, g[p].depth, AtDepth(g, g[p].depth), p);
    }
  }

  lemma NothingDanglesOnlyIf(st: Store, universe: set<Path>, members: seq<Member>, rootFails: nat -> bool,
                             fails: nat -> (nat -> bool), outputs: seq<Path>, g: Graph)
    requires PreparedKept(st, universe, members, rootFails, fails, outputs, g)
    requires NothingDangles(st, universe, members, outputs, g)
    ensures OddNamesPrepared(st, g)
  {
    var kept := Kept(st, outputs, members, rootFails);
    assert forall r :: r in kept ==> r in outputs;
    hide IsPrepared, Kept;
    forall p, q | p in g && q in Refs(st, p) && st.hashOf(q).None?
      ensures q in g
    {
      var r := PreparedIsReferred(st, universe, kept, g, p, q);
      assert Covered(st, members, g, q);
    }
  }

  // ---- names that do not parse --------------------------------------------------

  /** The batch of the level this path was prepared at brought no hit at all. */
  ghost predicate Unanswered(st: Store, g: Graph, p: Path)
    requires p in g
  {
    LevelAnswer(st, g[p].depth, AtDepth(g, g[p].depth)) == map[]
  }

  /** A reference is neither missing nor present exactly if its name does not parse and its batch had a hit. */
  lemma DroppedIff(st: Store, g: Graph, roots: set<Path>, p: Path, q: Path)
    requires PreparedFrom(st, g, roots) && p in g && q in Refs(st, p)
    ensures
      var answer := LevelAnswer(st, g[p].depth, AtDepth(g, g[p].depth));
      q !in g[p].missing && !Present(st, answer, q) <==> st.hashOf(q).None? && answer != map[]
  {
    assert g[p].missing == MissingAt(st, g[p].depth, AtDepth(g, g[p].depth), p);
  }

  /** What prepares a path whose name does not parse: being a build output, or a referrer whose batch had no hit. */
  ghost predicate Asked(st: Store, outputs: seq<Path>, g: Graph, q: Path)
  {
    q in outputs || exists p :: p in g && q in Refs(st, p) && Unanswered(st, g, p)
  }

  lemma OddNameIsMissingIff(st: Store, g: Graph, roots: set<Path>, p: Path, q: Path)
    requires PreparedFrom(st, g, roots) && p in g && q in Refs(st, p) && st.hashOf(q).None?
    ensures q in g[p].missing <==> Unanswered(st, g, p)
  {
    DroppedIff(st, g, roots, p, q);
    hide PreparedFrom, AtDepth, LevelAnswer;
  }

  lemma OddNameWasAsked(st: Store, g: Graph, members: seq<Member>, rootFails: nat -> bool, outputs: seq<Path>, q: Path)
    requires PreparedFrom(st, g, Elems(Kept(st, outputs, members, rootFails))) && st.hashOf(q).None? && q in g
    ensures Asked(st, outputs, g, q)
  {
    var kept := Kept(st, outputs, members, rootFails);
    assert q in Elems(kept) ==> q in outputs;
    hide Kept;
    if g[q].depth > 0 {
      assert HasParent(g, q);
      var p :| IsParent(g, p, q);
      assert p in g && q in g[p].missing && g[p].missing == MissingAt(st, g[p].depth, AtDepth(g, g[p].depth), p);
      hide PreparedFrom, AtDepth, LevelAnswer, MissingAt, Unanswered;
      OddNameIsMissingIff(st, g, Elems(kept), p, q);
    } else {
      assert q in AtDepth(g, 0);
    }
  }

  lemma AskedIsPrepared(st: Store, g: Graph, members: seq<Member>, rootFails: nat -> bool, outputs: seq<Path>, q: Path)
    requires PreparedFrom(st, g, Elems(Kept(st, outputs, members, rootFails))) && st.hashOf(q).None?
    requires Asked(st, outputs, g, q)
    ensures q in g
  {
    var kept := Kept(st, outputs, members, rootFails);
    LayeredIsClosed(g, Elems(kept));
    if q in outputs {
      assert q in kept;
      assert q in Elems(kept) && q in AtDepth(g, 0);
    } else {
      hide Layered, RecordsAnswers, Unanswered, Kept;
      var p :| p in g && q in Refs(st, p) && Unanswered(st, g, p);
      OddNameIsMissingIff(st, g, Elems(kept), p, q);
    }
  }

  /**
   Whatever upstream queries fail, at the filter on build outputs or at any level of
   the walk: everything the build outputs refer to was prepared or is really held by
   some upstream, if and only if each reference of a prepared path whose name does not
   parse is a build output or has a referrer whose batch had no hit at all.
   */
  lemma NoDanglingIff(st: Store, universe: set<Path>, members: seq<Member>, rootFails: nat -> bool,
                      fails: nat -> (nat -> bool), outputs: seq<Path>, g: Graph)
    requires PreparedKept(st, universe, members, rootFails, fails, outputs, g)
    ensures NothingDangles(st, universe, members, outputs, g) <==>
      forall p, q :: p in g && q in Refs(st, p) && st.hashOf(q).None? ==> Asked(st, outputs, g, q)
  {
    KeptArePrepared(st, universe, members, rootFails, fails, outputs, g);
    hide PreparedKept, PreparedFrom, NothingDangles, Asked, Kept, Refs;
    forall q | st.hashOf(q).None?
      ensures q in g <==> Asked(st, outputs, g, q)
    {
      if q in g {
        OddNameWasAsked(st, g, members, rootFails, outputs, q);
      }
      if Asked(st, outputs, g, q) {
        AskedIsPrepared(st, g, members, rootFails, outputs, q);
      }
    }
    if NothingDangles(st, universe, members, outputs, g) {
      NothingDanglesOnlyIf(st, universe, members, rootFails, fails, outputs, g);
    } else if OddNamesPrepared(st, g) {
      NothingDanglesIf(st, universe, members, rootFails, fails, outputs, g);
    }
  }

  /** If all names parse, nothing ever dangles. */
  lemma NoDanglingReferences(st: Store, universe: set<Path>, members: seq<Member>, rootFails: nat -> bool,
                             fails: nat -> (nat -> bool), outputs: seq<Path>, g: Graph)
    requires PreparedKept(st, universe, members, rootFails, fails, outputs, g) && NamesParse(st, universe)
    ensures NothingDangles(st, universe, members, outputs, g)
  {
    LinksAreReferences(st, universe, Kept(st, outputs, members, rootFails), g);
    NoDanglingIff(st, universe, members, rootFails, fails, outputs, g);
    hide IsPrepared, NothingDangles, Asked, Kept;
  }

  const HOLDS_B: Member := (h: Hash) => h == "B"
  const NONE_FAILS: nat -> bool := (i: nat) => false
  const NEVER_FAILS: nat -> (nat -> bool) := (d: nat) => NONE_FAILS

  /** A path that refers to x, whose name does not parse, and to B, which the only upstream holds. */
  const ODD_NAME := Store(
    (p: Path) => if p == "A" then Some(["x", "B"]) else Some([]),
    (p: Path) => if p == "x" then None else Some(p),
    (p: Path) => true,
    (d: nat, hashes: set<Hash>) => if "B" in hashes then map["B" := true] else map[])

  lemma OddNameIsNotMissing()
    ensures MissingAt(ODD_NAME, 0, {"A"}, "A") == []
  {
    var refs := ["x", "B"];
    assert "B" in LevelHashes(ODD_NAME, {"A"}) by {
      assert "A" in {"A"} && "B" in Refs(ODD_NAME, "A") && ODD_NAME.hashOf("B") == Some("B");
    }
    assert LevelAnswer(ODD_NAME, 0, {"A"}) == map["B" := true];
    assert Absent(ODD_NAME, refs, map["B" := true]) == {};
    KeepInNone(refs);
  }

  lemma OddNameUniverse()
    ensures Elems(["A"]) == {"A"} && Elems<Path>([]) == {} && FiniteStore(ODD_NAME, {"A", "B", "x"})
    ensures forall p: Path :: Preparable(ODD_NAME, p)
  {
  }

  lemma OddNameLevel()
    ensures Unseen(["A"], {}) == ["A"] && AllMissing(ODD_NAME, 0, {"A"}, ["A"]) == []
  {
    OddNameIsNotMissing();
    hide MissingAt;
    assert ["A"][..0] == [];
    assert Unseen<Path>([], {}) == [] && Elems<Path>([]) == {};
  }

  lemma OddNameBelow()
    requires FiniteStore(ODD_NAME, {"A", "B", "x"}) && Elems<Path>([]) <= {"A", "B", "x"}
    ensures Walk(ODD_NAME, {"A", "B", "x"}, 1, [], {"A"}) == Walked([], map[])
  {
    assert Unseen<Path>([], {"A"}) == [];
  }

  /** A is prepared with nothing missing. */
  lemma OddNameIsPrepared() returns (g: Graph)
    ensures IsPrepared(ODD_NAME, {"A", "B", "x"}, ["A"], g) && g.Keys == {"A"}
  {
    var universe: set<Path> := {"A", "B", "x"};
    OddNameUniverse();
    OddNameLevel();
    OddNameBelow();
    g := LevelNodes(ODD_NAME, 0, ["A"], []);
    hide Walk, MissingAt, AllMissing, FiniteStore, Unseen, Elems, Preparable;
    WalkOnto(ODD_NAME, universe, ["A"], {"A"}, [], Walked([], map[]));
    assert map[] + g == g;
  }

  lemma OddNameUpstream()
    ensures AnsweredByGroup(ODD_NAME, [HOLDS_B], NEVER_FAILS)
    ensures ReferenceClosed(ODD_NAME, {"A", "B", "x"}, HOLDS_B)
  {
    forall d: nat, hashes
      ensures ODD_NAME.upstream(d, hashes) == GroupAnswer([HOLDS_B], NEVER_FAILS(d), hashes)
    {
      forall h
        ensures AnyAnswers([HOLDS_B], NONE_FAILS, h) <==> h == "B"
      {
        assert [HOLDS_B][0](h) <==> h == "B";
      }
    }
  }

  lemma OddNameIsKept()
    ensures Kept(ODD_NAME, ["A"], [HOLDS_B], NONE_FAILS) == ["A"]
  {
    var roots: seq<Path> := ["A"];
    var answer := GroupAnswer([HOLDS_B], NONE_FAILS, RootHashes(ODD_NAME, roots));
    var keep := set p | p in roots && !Present(ODD_NAME, answer, p);
    assert "A" in keep;
    assert [] + ["A"] == roots;
    KeepInAppend([], "A", keep);
  }

  lemma OddNameIsLost(g: Graph)
    requires g.Keys == {"A"}
    ensures "x" in Refs(ODD_NAME, "A") && !Covered(ODD_NAME, [HOLDS_B], g, "x") && !OddNamesPrepared(ODD_NAME, g)
  {
    assert ODD_NAME.hashOf("x").None? && "x" in Refs(ODD_NAME, "A") && "A" in g;
  }

  /** An output, prepared while every upstream answers, with a reference that is lost for its name alone. */
  lemma OddNameDangles() returns (g: Graph)
    ensures PreparedKept(ODD_NAME, {"A", "B", "x"}, [HOLDS_B], NONE_FAILS, NEVER_FAILS, ["A"], g)
    ensures "A" in g && "x" in Refs(ODD_NAME, "A") && !Covered(ODD_NAME, [HOLDS_B], g, "x")
    ensures !NothingDangles(ODD_NAME, {"A", "B", "x"}, [HOLDS_B], ["A"], g)
  {
    hide *;
    var universe: set<Path> := {"A", "B", "x"};
    g := OddNameIsPrepared();
    OddNameUniverse();
    OddNameUpstream();
    OddNameIsKept();
    OddNameIsLost(g);
    KeptIsPrepared(ODD_NAME, universe, HOLDS_B, NONE_FAILS, NEVER_FAILS, ["A"], g);
    if NothingDangles(ODD_NAME, universe, [HOLDS_B], ["A"], g) {
      NothingDanglesOnlyIf(ODD_NAME, universe, [HOLDS_B], NONE_FAILS, NEVER_FAILS, ["A"], g);
    }
  }

  lemma KeptIsPrepared(st: Store, universe: set<Path>, member: Member, rootFails: nat -> bool,
                       fails: nat -> (nat -> bool), outputs: seq<Path>, g: Graph)
    requires FiniteStore(st, universe) && Elems(outputs) <= universe && AnsweredByGroup(st, [member], fails)
    requires ReferenceClosed(st, universe, member) && Kept(st, outputs, [member], rootFails) == outputs
    requires IsPrepared(st, universe, outputs, g)
    ensures PreparedKept(st, universe, [member], rootFails, fails, outputs, g)
  {
    hide FiniteStore, AnsweredByGroup, ReferenceClosed, Kept, IsPrepared;
  }
}
