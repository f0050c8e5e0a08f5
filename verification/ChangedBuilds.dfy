/**
 Builds of what a commit changed (internal/ci/changed.go), over a whole history of
 CI runs: each run builds only the difference to an older commit, and yet the cache
 holds what every run's commit exposes, exactly if the commits diffed against were
 themselves run.

 Commits are numbers. What git and nix say about them is given: the first parent, the
 base each run asks for, and the derivations of each commit whose flake evaluates.
 */
module ChangedBuilds {
  import opened Sequences
  import opened Text
  import opened Sorting

  /** The derivation of each output by class; "" for an output that failed to evaluate. */
  datatype Drvs = Drvs(
    packages: map<string, string>,
    devShells: map<string, string>,
    nixosConfigurations: map<string, string>)

  datatype Outputs = Outputs(packages: seq<string>, devShells: seq<string>, nixosConfigurations: seq<string>)

  datatype Policy = BuildAll | Fail | BuildNothing

  const NO_DRVS: Drvs := Drvs(map[], map[], map[])

  // ---- the difference between two commits ---------------------------------------------------

  function Drv(outputs: map<string, string>, name: string): string
  {
    if name in outputs then outputs[name] else ""
  }

  function ChangedNames(base: map<string, string>, head: map<string, string>): set<string>
  {
    set name | name in head && (head[name] == "" || Drv(base, name) != head[name])
  }

  ghost predicate ListsExactly(list: seq<string>, names: set<string>)
  {
    Elems(list) == names && NoDup(list) && Ascending(list)
  }

  /** Listed in order is what did not evaluate, is new, or has another derivation than before. */
  ghost predicate ListsChanged(list: seq<string>, base: map<string, string>, head: map<string, string>)
  {
    && NoDup(list) && Ascending(list)
    && forall name :: name in list <==>
         name in head && (head[name] == "" || name !in base || base[name] != head[name])
  }

  lemma ChangedIsListed(list: seq<string>, base: map<string, string>, head: map<string, string>)
    requires ListsExactly(list, ChangedNames(base, head))
    ensures ListsChanged(list, base, head)
  {
    hide Ascending;
    forall name
      ensures name in list <==> name in head && (head[name] == "" || name !in base || base[name] != head[name])
    {
      assert name in list <==> name in Elems(list);
    }
  }

  method SortedList(names: seq<string>) returns (out: seq<string>)
    requires NoDup(names)
    ensures ListsExactly(out, Elems(names))
  {
    out := Sort(names);
    SortSorted(names);
    SortedIsAscending(out);
    SortNoDup(names);
    forall x
      ensures x in out <==> x in names
    {
      SortElements(names, x);
    }
  }

  /** The names whose derivation differs from the base's, in order. */
  method ChangedClass(base: map<string, string>, head: map<string, string>) returns (out: seq<string>)
    ensures ListsExactly(out, ChangedNames(base, head))
    ensures ListsChanged(out, base, head)
  {
    var names: seq<string> := [];
    var rest := head.Keys;
    while rest != {}
      invariant rest <= head.Keys && Elems(names) == ChangedNames(base, head) - rest && NoDup(names)
    {
      var name :| name in rest;
      rest := rest - {name};
      assert Elems(names + [name]) == Elems(names) + {name};
      if head[name] == "" || Drv(base, name) != head[name] {
        names := names + [name];
      }
    }
    out := SortedList(names);
    ChangedIsListed(out, base, head);
  }

  ghost predicate Selects(out: Outputs, base: Drvs, head: Drvs)
  {
    && ListsExactly(out.packages, ChangedNames(base.packages, head.packages))
    && ListsExactly(out.devShells, ChangedNames(base.devShells, head.devShells))
    && ListsExactly(out.nixosConfigurations, ChangedNames(base.nixosConfigurations, head.nixosConfigurations))
  }

  /** Each class lists what changed in it. */
  ghost predicate SelectsChanged(out: Outputs, base: Drvs, head: Drvs)
  {
    && ListsChanged(out.packages, base.packages, head.packages)
    && ListsChanged(out.devShells, base.devShells, head.devShells)
    && ListsChanged(out.nixosConfigurations, base.nixosConfigurations, head.nixosConfigurations)
  }

  lemma SelectedIsChanged(out: Outputs, base: Drvs, head: Drvs)
    requires Selects(out, base, head)
    ensures SelectsChanged(out, base, head)
  {
    ChangedIsListed(out.packages, base.packages, head.packages);
    ChangedIsListed(out.devShells, base.devShells, head.devShells);
    ChangedIsListed(out.nixosConfigurations, base.nixosConfigurations, head.nixosConfigurations);
  }

  /** Each class lists all its outputs. */
  ghost predicate SelectsAll(out: Outputs, head: Drvs)
  {
    && ListsExactly(out.packages, head.packages.Keys)
    && ListsExactly(out.devShells, head.devShells.Keys)
    && ListsExactly(out.nixosConfigurations, head.nixosConfigurations.Keys)
  }

  /** No output that failed to evaluate is left out. */
  ghost predicate KeepsFailed(out: Outputs, head: Drvs)
  {
    && (forall name :: name in head.packages && head.packages[name] == "" ==> name in out.packages)
    && (forall name :: name in head.devShells && head.devShells[name] == "" ==> name in out.devShells)
    && (forall name :: name in head.nixosConfigurations && head.nixosConfigurations[name] == "" ==>
          name in out.nixosConfigurations)
  }

  method ChangedOutputs(base: Drvs, head: Drvs) returns (out: Outputs)
    ensures Selects(out, base, head)
    ensures SelectsChanged(out, base, head)
  {
    var packages := ChangedClass(base.packages, head.packages);
    var devShells := ChangedClass(base.devShells, head.devShells);
    var nixosConfigurations := ChangedClass(base.nixosConfigurations, head.nixosConfigurations);
    out := Outputs(packages, devShells, nixosConfigurations);
    SelectedIsChanged(out, base, head);
  }

  method ClassNames(head: map<string, string>) returns (out: seq<string>)
    ensures ListsExactly(out, head.Keys)
  {
    var names: seq<string> := [];
    var rest := head.Keys;
    while rest != {}
      invariant rest <= head.Keys && Elems(names) == head.Keys - rest && NoDup(names)
    {
      var name :| name in rest;
      rest := rest - {name};
      assert Elems(names + [name]) == Elems(names) + {name};
      names := names + [name];
    }
    out := SortedList(names);
  }

  /** Every output: what differs from a commit that exposes none. */
  method AllOutputs(head: Drvs) returns (out: Outputs)
    ensures Selects(out, NO_DRVS, head)
    ensures SelectsAll(out, head)
  {
    assert ChangedNames(map[], head.packages) == head.packages.Keys;
    assert ChangedNames(map[], head.devShells) == head.devShells.Keys;
    assert ChangedNames(map[], head.nixosConfigurations) == head.nixosConfigurations.Keys;
    var packages := ClassNames(head.packages);
    var devShells := ClassNames(head.devShells);
    var nixosConfigurations := ClassNames(head.nixosConfigurations);
    out := Outputs(packages, devShells, nixosConfigurations);
  }

  // ---- the base commit ------------------------------------------------------------------------

  const BASE_ANCESTRY_LIMIT: nat := 10

  /** What git knows, and which commits evaluate. base is None where the ref does not resolve. */
  datatype Shape = Shape(parent: nat -> Option<nat>, base: nat -> Option<nat>, evaluates: nat -> bool)

  /** The commit and its nearest first-parent ancestors. */
  function Ancestry(s: Shape, c: nat, limit: nat): (r: seq<nat>)
    ensures |r| <= limit
    decreases limit
  {
    if limit == 0 then []
    else
      [c] + match s.parent(c)
            case Some(p) => Ancestry(s, p, limit - 1)
            case None => []
  }

  function FirstOf(ancestry: seq<nat>, evaluates: nat -> bool): Option<nat>
  {
    if ancestry == [] then None
    else if evaluates(ancestry[0]) then Some(ancestry[0])
    else FirstOf(ancestry[1..], evaluates)
  }

  /** The commit a run at c is diffed against. */
  function UsedBase(s: Shape, c: nat): Option<nat>
  {
    match s.base(c)
    case None => None
    case Some(b) => FirstOf(Ancestry(s, b, BASE_ANCESTRY_LIMIT), s.evaluates)
  }

  /** The k-th commit above c along first parents. */
  function Up(s: Shape, c: nat, k: nat): Option<nat>
    decreases k
  {
    if k == 0 then Some(c)
    else
      match s.parent(c)
      case Some(p) => Up(s, p, k - 1)
      case None => None
  }

  lemma {:induction false} AncestryIsUp(s: Shape, c: nat, limit: nat, k: nat)
    requires k < limit
    ensures k < |Ancestry(s, c, limit)| <==> Up(s, c, k).Some?
    ensures k < |Ancestry(s, c, limit)| ==> Up(s, c, k) == Some(Ancestry(s, c, limit)[k])
    decreases k
  {
    if k > 0 && s.parent(c).Some? {
      AncestryIsUp(s, s.parent(c).value, limit - 1, k - 1);
    }
  }

  lemma {:induction false} FirstOfIs(ancestry: seq<nat>, evaluates: nat -> bool) returns (k: nat)
    ensures k <= |ancestry| && forall j :: 0 <= j < k ==> !evaluates(ancestry[j])
    ensures FirstOf(ancestry, evaluates) == if k < |ancestry| then Some(ancestry[k]) else None
    ensures k < |ancestry| ==> evaluates(ancestry[k])
  {
    k := 0;
    if ancestry != [] && !evaluates(ancestry[0]) {
      var j := FirstOfIs(ancestry[1..], evaluates);
      assert forall i :: 1 <= i < |ancestry| ==> ancestry[i] == ancestry[1..][i - 1];
      k := j + 1;
    }
  }

  /** u is the nearest commit that evaluates, k steps above c. */
  ghost predicate Nearest(s: Shape, c: nat, k: nat, u: nat)
  {
    && Up(s, c, k) == Some(u) && s.evaluates(u)
    && forall j: nat :: j < k ==> Up(s, c, j).Some? && !s.evaluates(Up(s, c, j).value)
  }

  lemma NearestOnce(s: Shape, c: nat, k: nat, u: nat, m: nat, v: nat)
    requires Nearest(s, c, k, u) && Nearest(s, c, m, v)
    ensures k == m && u == v
  {
    assert !(k < m) && !(m < k);
  }

  /** The base used is the nearest commit that evaluates among the requested one and nine above it. */
  lemma UsedBaseIff(s: Shape, c: nat, u: nat)
    ensures UsedBase(s, c) == Some(u) <==>
            s.base(c).Some? && exists k: nat :: k < 10 && Nearest(s, s.base(c).value, k, u)
  {
    if s.base(c).Some? {
      var b := s.base(c).value;
      var ancestry := Ancestry(s, b, BASE_ANCESTRY_LIMIT);
      var k := FirstOfIs(ancestry, s.evaluates);
      forall j: nat | j < 10
        ensures j < |ancestry| <==> Up(s, b, j).Some?
        ensures j < |ancestry| ==> Up(s, b, j) == Some(ancestry[j])
      {
        AncestryIsUp(s, b, 10, j);
      }
      hide Up, Ancestry, FirstOf;
      if k < |ancestry| {
        assert Nearest(s, b, k, ancestry[k]);
      }
      forall m: nat | m < 10 && Nearest(s, b, m, u)
        ensures k < |ancestry| && ancestry[k] == u
      {
        assert m < |ancestry| && s.evaluates(ancestry[m]);
        assert k <= m;
        NearestOnce(s, b, k, ancestry[k], m, u);
      }
    }
  }

  type Evaluation = nat -> Option<Drvs>

  ghost predicate Matches(drvs: Evaluation, s: Shape)
  {
    forall c :: drvs(c).Some? <==> s.evaluates(c)
  }

  lemma {:induction false} FirstOfSkips(ancestry: seq<nat>, i: nat, evaluates: nat -> bool)
    requires i <= |ancestry| && forall k :: 0 <= k < i ==> !evaluates(ancestry[k])
    ensures FirstOf(ancestry, evaluates) == FirstOf(ancestry[i..], evaluates)
  {
    if i > 0 {
      FirstOfSkips(ancestry[1..], i - 1, evaluates);
      assert ancestry[1..][i - 1..] == ancestry[i..];
    } else {
      assert ancestry[i..] == ancestry;
    }
  }

  method FirstEvaluatable(ancestry: seq<nat>, drvs: Evaluation, ghost s: Shape) returns (base: Option<Drvs>)
    requires Matches(drvs, s)
    ensures base == match FirstOf(ancestry, s.evaluates) case Some(u) => drvs(u) case None => None
  {
    for i := 0 to |ancestry|
      invariant forall k :: 0 <= k < i ==> !s.evaluates(ancestry[k])
    {
      base := drvs(ancestry[i]);
      if base.Some? {
        FirstOfSkips(ancestry, i, s.evaluates);
        return;
      }
    }
    FirstOfSkips(ancestry, |ancestry|, s.evaluates);
    base := None;
  }

  /** What a run does: it fails, it builds nothing, or it builds the difference to some derivations. */
  datatype Plan = Fails | Nothing | DiffAgainst(base: Drvs)

  function PlanOf(s: Shape, drvs: Evaluation, policy: Policy, c: nat): Plan
  {
    if drvs(c).None? then Fails
    else
      var u := UsedBase(s, c);
      if u.Some? && drvs(u.value).Some? then DiffAgainst(drvs(u.value).value)
      else match policy
           case BuildAll => DiffAgainst(NO_DRVS)
           case Fail => Fails
           case BuildNothing => Nothing
  }

  /**
   What one run builds: nothing is known of a commit that does not evaluate; what
   changed since the base; without a base all, nothing, or an error as the policy says.
   */
  ghost predicate Resolves(s: Shape, drvs: Evaluation, policy: Policy, c: nat, builds: Option<Outputs>)
  {
    && (builds.None? <==> drvs(c).None? || (UsedBase(s, c).None? && policy.Fail?))
    && (drvs(c).Some? && UsedBase(s, c).Some? ==>
          && builds.Some? && drvs(UsedBase(s, c).value).Some?
          && SelectsChanged(builds.value, drvs(UsedBase(s, c).value).value, drvs(c).value))
    && (drvs(c).Some? && UsedBase(s, c).None? && policy.BuildAll? ==>
          builds.Some? && SelectsAll(builds.value, drvs(c).value))
    && (drvs(c).Some? && UsedBase(s, c).None? && policy.BuildNothing? ==> builds == Some(Outputs([], [], [])))
  }

  lemma ChangedKeepsFailed(out: Outputs, base: Drvs, head: Drvs)
    requires SelectsChanged(out, base, head)
    ensures KeepsFailed(out, head)
  {
    hide Ascending;
  }

  lemma AllKeepsFailed(out: Outputs, head: Drvs)
    requires SelectsAll(out, head)
    ensures KeepsFailed(out, head)
  {
    hide Ascending;
    assert forall name :: name in out.packages <==> name in Elems(out.packages);
    assert forall name :: name in out.devShells <==> name in Elems(out.devShells);
    assert forall name :: name in out.nixosConfigurations <==> name in Elems(out.nixosConfigurations);
  }

  /** newDiffer and resolveChanged for one run. */
  method ResolveChanged(s: Shape, drvs: Evaluation, policy: Policy, c: nat) returns (builds: Option<Outputs>)
    requires Matches(drvs, s)
    ensures match PlanOf(s, drvs, policy, c)
            case Fails => builds.None?
            case Nothing => builds == Some(Outputs([], [], []))
            case DiffAgainst(base) => builds.Some? && Selects(builds.value, base, drvs(c).value)
    ensures Resolves(s, drvs, policy, c, builds)
    ensures drvs(c).Some? && (UsedBase(s, c).Some? || policy.BuildAll?) ==>
      builds.Some? && KeepsFailed(builds.value, drvs(c).value)
  {
    hide Selects, SelectsChanged, SelectsAll, ListsExactly, KeepsFailed;
    var head := drvs(c);
    if head.None? {
      return None;
    }
    var requested := s.base(c);
    if requested.Some? {
      UsedBaseEvaluates(Ancestry(s, requested.value, BASE_ANCESTRY_LIMIT), s.evaluates);
      var base := FirstEvaluatable(Ancestry(s, requested.value, BASE_ANCESTRY_LIMIT), drvs, s);
      if base.Some? {
        var out := ChangedOutputs(base.value, head.value);
        ChangedKeepsFailed(out, base.value, head.value);
        return Some(out);
      }
    }
    match policy {
      case BuildAll =>
        var out := AllOutputs(head.value);
        AllKeepsFailed(out, head.value);
        builds := Some(out);
      case Fail =>
        builds := None;
      case BuildNothing =>
        builds := Some(Outputs([], [], []));
    }
  }

  lemma {:induction false} UsedBaseEvaluates(ancestry: seq<nat>, evaluates: nat -> bool)
    ensures FirstOf(ancestry, evaluates).Some? ==>
      evaluates(FirstOf(ancestry, evaluates).value) && FirstOf(ancestry, evaluates).value in ancestry
  {
    if ancestry != [] && !evaluates(ancestry[0]) {
      UsedBaseEvaluates(ancestry[1..], evaluates);
    }
  }

  // ---- the cache over a history ------------------------------------------------------------------

  /** The derivations a run of one class adds: those of the outputs it builds, if they evaluated. */
  function ClassBuilds(base: map<string, string>, head: map<string, string>): set<string>
  {
    set name | name in ChangedNames(base, head) && head[name] != "" :: head[name]
  }

  function DrvsBuilt(base: Drvs, head: Drvs): set<string>
  {
    ClassBuilds(base.packages, head.packages)
    + ClassBuilds(base.devShells, head.devShells)
    + ClassBuilds(base.nixosConfigurations, head.nixosConfigurations)
  }

  function AfterRun(s: Shape, drvs: Evaluation, policy: Policy, cache: set<string>, c: nat): set<string>
  {
    match PlanOf(s, drvs, policy, c)
    case DiffAgainst(base) => cache + DrvsBuilt(base, drvs(c).value)
    case _ => cache
  }

  function CacheAfter(s: Shape, drvs: Evaluation, policy: Policy, runs: seq<nat>): set<string>
  {
    if runs == [] then {}
    else AfterRun(s, drvs, policy, CacheAfter(s, drvs, policy, runs[..|runs| - 1]), runs[|runs| - 1])
  }

  ghost predicate ClassHeld(cache: set<string>, outputs: map<string, string>)
  {
    forall name :: name in outputs && outputs[name] != "" ==> outputs[name] in cache
  }

  /** Every derivation of a commit is in the cache. */
  ghost predicate Covered(cache: set<string>, d: Drvs)
  {
    ClassHeld(cache, d.packages) && ClassHeld(cache, d.devShells) && ClassHeld(cache, d.nixosConfigurations)
  }

  /** After each run at a commit that evaluates, the cache covers that commit. */
  ghost predicate EveryRunCovers(s: Shape, drvs: Evaluation, policy: Policy, runs: seq<nat>)
  {
    forall i :: 0 <= i < |runs| && drvs(runs[i]).Some? ==>
      Covered(CacheAfter(s, drvs, policy, runs[..i + 1]), drvs(runs[i]).value)
  }

  /** Each run at a commit that evaluates is diffed against a commit that ran before it, or builds all. */
  ghost predicate BasesHaveRun(s: Shape, policy: Policy, runs: seq<nat>)
  {
    forall i :: 0 <= i < |runs| && s.evaluates(runs[i]) ==> BaseHasRun(s, policy, runs, i)
  }

  ghost predicate BaseHasRun(s: Shape, policy: Policy, runs: seq<nat>, i: nat)
    requires i < |runs|
  {
    match UsedBase(s, runs[i])
    case Some(u) => u in runs[..i]
    case None => policy.BuildAll?
  }

  lemma {:induction false} CacheGrows(s: Shape, drvs: Evaluation, policy: Policy, runs: seq<nat>, i: nat)
    requires i <= |runs|
    ensures CacheAfter(s, drvs, policy, runs[..i]) <= CacheAfter(s, drvs, policy, runs)
  {
    if i < |runs| {
      assert runs[..|runs| - 1][..i] == runs[..i];
      CacheGrows(s, drvs, policy, runs[..|runs| - 1], i);
    } else {
      assert runs[..i] == runs;
    }
  }

  lemma ClassDiffCovers(cache: set<string>, base: map<string, string>, head: map<string, string>)
    requires ClassHeld(cache, base)
    ensures ClassHeld(cache + ClassBuilds(base, head), head)
  {
    forall name | name in head && head[name] != ""
      ensures head[name] in cache + ClassBuilds(base, head)
    {
      if name !in ChangedNames(base, head) {
        assert Drv(base, name) == head[name];
      }
    }
  }

  /** A cache that covers the base covers the head once the difference is built. */
  lemma DiffCovers(cache: set<string>, base: Drvs, head: Drvs)
    requires Covered(cache, base)
    ensures Covered(cache + DrvsBuilt(base, head), head)
  {
    ClassDiffCovers(cache, base.packages, head.packages);
    ClassDiffCovers(cache, base.devShells, head.devShells);
    ClassDiffCovers(cache, base.nixosConfigurations, head.nixosConfigurations);
  }

  lemma UsedBaseHasDrvs(s: Shape, drvs: Evaluation, c: nat)
    requires Matches(drvs, s) && UsedBase(s, c).Some?
    ensures drvs(UsedBase(s, c).value).Some?
  {
    UsedBaseEvaluates(Ancestry(s, s.base(c).value, BASE_ANCESTRY_LIMIT), s.evaluates);
  }

  /** One run covers its commit if the cache covered the commit it was diffed against. */
  lemma RunStep(s: Shape, drvs: Evaluation, policy: Policy, cache: set<string>, c: nat)
    requires Matches(drvs, s) && drvs(c).Some?
    requires match UsedBase(s, c)
             case Some(u) => drvs(u).Some? && Covered(cache, drvs(u).value)
             case None => policy.BuildAll?
    ensures Covered(AfterRun(s, drvs, policy, cache, c), drvs(c).value)
  {
    hide UsedBase, Covered, DrvsBuilt, Matches;
    var u := UsedBase(s, c);
    NothingCovered(cache);
    DiffCovers(cache, if u.Some? then drvs(u.value).value else NO_DRVS, drvs(c).value);
  }

  lemma NothingCovered(cache: set<string>)
    ensures Covered(cache, NO_DRVS)
  {
  }

  lemma {:induction false} RunCovers(s: Shape, drvs: Evaluation, policy: Policy, runs: seq<nat>, i: nat)
    requires Matches(drvs, s) && BasesHaveRun(s, policy, runs) && i < |runs| && drvs(runs[i]).Some?
    ensures Covered(CacheAfter(s, drvs, policy, runs[..i + 1]), drvs(runs[i]).value)
    decreases i
  {
    var c, before := runs[i], CacheAfter(s, drvs, policy, runs[..i]);
    var u := UsedBase(s, c);
    BaseIsEarlier(s, drvs, policy, runs, i);
    CacheStep(s, drvs, policy, runs, i);
    hide *;
    if u.Some? {
      UsedBaseHasDrvs(s, drvs, c);
      var j :| 0 <= j < i && runs[j] == u.value;
      RunCovers(s, drvs, policy, runs, j);
      CoveredSince(s, drvs, policy, runs, j, i, drvs(u.value).value);
    }
    RunStep(s, drvs, policy, before, c);
  }

  lemma CoveredSince(s: Shape, drvs: Evaluation, policy: Policy, runs: seq<nat>, j: nat, i: nat, d: Drvs)
    requires j < i <= |runs| && Covered(CacheAfter(s, drvs, policy, runs[..j + 1]), d)
    ensures Covered(CacheAfter(s, drvs, policy, runs[..i]), d)
  {
    hide *;
    assert runs[..i][..j + 1] == runs[..j + 1];
    CacheGrows(s, drvs, policy, runs[..i], j + 1);
    StillCovered(CacheAfter(s, drvs, policy, runs[..j + 1]), CacheAfter(s, drvs, policy, runs[..i]), d);
  }

  lemma BaseIsEarlier(s: Shape, drvs: Evaluation, policy: Policy, runs: seq<nat>, i: nat)
    requires Matches(drvs, s) && BasesHaveRun(s, policy, runs) && i < |runs| && drvs(runs[i]).Some?
    ensures UsedBase(s, runs[i]).Some? ==> exists j :: 0 <= j < i && runs[j] == UsedBase(s, runs[i]).value
    ensures UsedBase(s, runs[i]).None? ==> policy.BuildAll?
  {
    hide UsedBase;
    assert s.evaluates(runs[i]);
    assert BaseHasRun(s, policy, runs, i);
  }

  lemma CacheStep(s: Shape, drvs: Evaluation, policy: Policy, runs: seq<nat>, i: nat)
    requires i < |runs|
    ensures CacheAfter(s, drvs, policy, runs[..i + 1]) ==
      AfterRun(s, drvs, policy, CacheAfter(s, drvs, policy, runs[..i]), runs[i])
  {
    hide AfterRun;
    assert runs[..i + 1][..i] == runs[..i];
  }

  lemma RunsCover(s: Shape, drvs: Evaluation, policy: Policy, runs: seq<nat>)
    requires Matches(drvs, s) && BasesHaveRun(s, policy, runs)
    ensures EveryRunCovers(s, drvs, policy, runs)
  {
    forall i | 0 <= i < |runs| && drvs(runs[i]).Some?
      ensures Covered(CacheAfter(s, drvs, policy, runs[..i + 1]), drvs(runs[i]).value)
    {
      RunCovers(s, drvs, policy, runs, i);
    }
  }

  lemma StillCovered(cache: set<string>, larger: set<string>, d: Drvs)
    requires cache <= larger && Covered(cache, d)
    ensures Covered(larger, d)
  {
  }

  // ---- when a base has not run ------------------------------------------------------------------------

  /** One package in c and in the commit it is diffed against, nothing in any other. */
  function Witness(s: Shape, c: nat): Evaluation
  {
    (k: nat) =>
         if !s.evaluates(k) then None
         else if k == c || Some(k) == UsedBase(s, c) then Some(Drvs(map["p" := "d"], map[], map[]))
         else Some(NO_DRVS)
  }

  lemma NothingBuilt(s: Shape, policy: Policy, c: nat, k: nat)
    requires (k == c || Some(k) != UsedBase(s, c)) && (UsedBase(s, c).Some? || !policy.BuildAll?)
    ensures AfterRun(s, Witness(s, c), policy, {}, k) == {}
  {
    var drvs := Witness(s, c);
    assert Matches(drvs, s);
    if drvs(k).Some? {
      if UsedBase(s, k).Some? {
        UsedBaseHasDrvs(s, drvs, k);
      }
      if k != c {
        assert drvs(k).value == NO_DRVS;
        forall base
          ensures DrvsBuilt(base, NO_DRVS) == {}
        {
        }
      } else if UsedBase(s, c).Some? {
        var d := drvs(c).value;
        assert drvs(UsedBase(s, c).value).value == d;
        assert DrvsBuilt(d, d) == {};
      }
    }
  }

  lemma {:induction false} NeverBuilt(s: Shape, policy: Policy, c: nat, runs: seq<nat>)
    requires forall k :: k in runs ==> k == c || Some(k) != UsedBase(s, c)
    requires UsedBase(s, c).Some? || !policy.BuildAll?
    ensures CacheAfter(s, Witness(s, c), policy, runs) == {}
  {
    if runs != [] {
      NeverBuilt(s, policy, c, runs[..|runs| - 1]);
      NothingBuilt(s, policy, c, runs[|runs| - 1]);
    }
  }

  lemma WitnessExposes(s: Shape, c: nat)
    requires s.evaluates(c)
    ensures Matches(Witness(s, c), s) && Witness(s, c)(c).Some? && !Covered({}, Witness(s, c)(c).value)
  {
    assert Witness(s, c)(c).value.packages["p"] == "d";
  }

  lemma UnrunBaseLeavesHole(s: Shape, policy: Policy, runs: seq<nat>, i: nat)
    requires i < |runs| && s.evaluates(runs[i]) && !BaseHasRun(s, policy, runs, i)
    ensures Matches(Witness(s, runs[i]), s)
    ensures !EveryRunCovers(s, Witness(s, runs[i]), policy, runs)
  {
    var c := runs[i];
    var drvs := Witness(s, c);
    WitnessExposes(s, c);
    hide Witness, Covered, CacheAfter, UsedBase, Matches, BaseHasRun;
    BaseNeverRan(s, policy, runs, i);
    NeverBuilt(s, policy, c, runs[..i + 1]);
  }

  lemma BaseNeverRan(s: Shape, policy: Policy, runs: seq<nat>, i: nat)
    requires i < |runs| && !BaseHasRun(s, policy, runs, i)
    ensures forall k :: k in runs[..i + 1] ==> k == runs[i] || Some(k) != UsedBase(s, runs[i])
    ensures UsedBase(s, runs[i]).Some? || !policy.BuildAll?
  {
    hide UsedBase;
    assert runs[..i + 1] == runs[..i] + [runs[i]];
  }

  /**
   Whatever the derivations are, every run covers its commit, if and only if every run
   was diffed against a commit that ran before it, or built all.
   */
  lemma CoverageIff(s: Shape, policy: Policy, runs: seq<nat>)
    ensures (forall drvs :: Matches(drvs, s) ==> EveryRunCovers(s, drvs, policy, runs)) <==>
      BasesHaveRun(s, policy, runs)
  {
    if BasesHaveRun(s, policy, runs) {
      forall drvs | Matches(drvs, s)
        ensures EveryRunCovers(s, drvs, policy, runs)
      {
        RunsCover(s, drvs, policy, runs);
      }
    } else {
      var i :| 0 <= i < |runs| && s.evaluates(runs[i]) && !BaseHasRun(s, policy, runs, i);
      UnrunBaseLeavesHole(s, policy, runs, i);
    }
  }

  // ---- histories in which every commit runs -------------------------------------------------------------

  lemma {:induction false} AncestryBelow(s: Shape, c: nat, limit: nat)
    requires forall k: nat :: s.parent(k).Some? ==> s.parent(k).value < k
    ensures forall a :: a in Ancestry(s, c, limit) ==> a <= c
    decreases limit
  {
    if limit > 0 && s.parent(c).Some? {
      AncestryBelow(s, s.parent(c).value, limit - 1);
    }
  }

  /**
   When every commit is run in order, each asking for its parent, and a missing base
   builds all, the cache covers every commit that evaluates; a base too far back or
   missing costs builds only.
   */
  lemma EveryCommitRun(s: Shape, drvs: Evaluation, runs: seq<nat>, i: nat)
    requires Matches(drvs, s)
    requires forall c: nat :: s.parent(c).Some? ==> s.parent(c).value < c
    requires forall c: nat :: s.base(c) == s.parent(c)
    requires forall k :: 0 <= k < |runs| ==> runs[k] == k
    requires i < |runs| && drvs(i).Some?
    ensures Covered(CacheAfter(s, drvs, BuildAll, runs), drvs(i).value)
  {
    forall k | 0 <= k < |runs| && s.evaluates(runs[k])
      ensures BaseHasRun(s, BuildAll, runs, k)
    {
      if UsedBase(s, k).Some? {
        var u, p := UsedBase(s, k).value, s.base(k).value;
        AncestryBelow(s, p, BASE_ANCESTRY_LIMIT);
        UsedBaseEvaluates(Ancestry(s, p, BASE_ANCESTRY_LIMIT), s.evaluates);
        assert u <= p < k && runs[..k][u] == u;
      }
    }
    RunCovers(s, drvs, BuildAll, runs, i);
    CacheGrows(s, drvs, BuildAll, runs, i + 1);
    StillCovered(CacheAfter(s, drvs, BuildAll, runs[..i + 1]), CacheAfter(s, drvs, BuildAll, runs), drvs(i).value);
  }

  /** A line of commits of which number 1 does not evaluate; each run asks for the commit before. */
  const BROKEN_ONCE: Shape :=
    Shape((c: nat) => if c == 0 then None else Some(c - 1),
          (c: nat) => if c == 0 then None else Some(c - 1),
          (c: nat) => c != 1)

  /**
   Walking back past a commit that did not evaluate can reach one that was never run,
   as when two commits are pushed together and only the second one runs; what that
   commit exposes is then in no cache although the next run takes it for built.
   */
  lemma WalkBackReachesUnrunCommit()
    ensures UsedBase(BROKEN_ONCE, 2) == Some(0)
    ensures exists drvs :: Matches(drvs, BROKEN_ONCE) && !EveryRunCovers(BROKEN_ONCE, drvs, BuildAll, [1, 2])
  {
    var s := BROKEN_ONCE;
    assert Ancestry(s, 1, 10) == [1] + Ancestry(s, 0, 9);
    assert Ancestry(s, 0, 9) == [0];
    assert FirstOf([1, 0], s.evaluates) == FirstOf([0], s.evaluates) by { assert [1, 0][1..] == [0]; }
    assert !BaseHasRun(s, BuildAll, [1, 2], 1) by { assert [1, 2][..1] == [1]; }
    UnrunBaseLeavesHole(s, BuildAll, [1, 2], 1);
  }

  // ---- expanding the build list ------------------------------------------------------------------------

  /** What one entry of the list stands for. */
  function EntriesOf(build: string, expansions: map<string, seq<string>>): seq<string>
  {
    if TrimSpace(build) in expansions then expansions[TrimSpace(build)] else [build]
  }

  /** x is in the expansion of the entry, or is the entry itself if it has none. */
  predicate StandsFor(build: string, expansions: map<string, seq<string>>, x: string)
  {
    var key := TrimSpace(build);
    (key in expansions && x in expansions[key]) || (key !in expansions && x == build)
  }

  function AllEntries(builds: seq<string>, expansions: map<string, seq<string>>): seq<seq<string>>
  {
    seq(|builds|, i requires 0 <= i < |builds| => EntriesOf(builds[i], expansions))
  }

  lemma EntrySeen(before: seq<string>, entries: seq<string>, j: nat)
    requires j < |entries|
    ensures
      var out, e := Unseen(before + entries[..j], {}), entries[j];
      && Unseen(before + entries[..j + 1], {}) == (if e in Elems(out) then out else out + [e])
      && Elems(out + [e]) == Elems(out) + {e}
  {
    hide *;
    assert before + entries[..j + 1] == before + entries[..j] + [entries[j]];
    UnseenAppend(before + entries[..j], entries[j], {});
    ElemsAppend(Unseen(before + entries[..j], {}), entries[j]);
  }

  /** Appends the entries not seen before. */
  method AppendUnseen(entries: seq<string>, seen: set<string>, out: seq<string>, ghost before: seq<string>)
    returns (seen': set<string>, out': seq<string>)
    requires seen == Elems(out) && out == Unseen(before, {})
    ensures seen' == Elems(out') && out' == Unseen(before + entries, {})
  {
    seen', out' := seen, out;
    assert before + entries[..0] == before;
    hide *;
    for j := 0 to |entries|
      invariant seen' == Elems(out') && out' == Unseen(before + entries[..j], {})
    {
      var e := entries[j];
      EntrySeen(before, entries, j);
      if e !in seen' {
        seen' := seen' + {e};
        out' := out' + [e];
      }
    }
    assert entries[..|entries|] == entries;
  }

  /** Each entry once, where it first occurs. */
  method ExpandBuilds(builds: seq<string>, expansions: map<string, seq<string>>) returns (out: seq<string>)
    ensures out == Unseen(Concat(AllEntries(builds, expansions)), {})
    ensures NoDup(out) && FirstOccurrences(Concat(AllEntries(builds, expansions)), {}, out)
    ensures forall x :: x in out <==> exists i :: 0 <= i < |builds| && StandsFor(builds[i], expansions, x)
  {
    ghost var all := AllEntries(builds, expansions);
    var seen: set<string> := {};
    out := [];
    ExpandedEntries(builds, expansions);
    UnseenIs(Concat(all), {});
    assert Unseen(Concat(all[..0]), {}) == [] && Elems<string>([]) == {};
    hide Unseen, Concat, EntriesOf, FirstOccurrences;
    for i := 0 to |builds|
      invariant seen == Elems(out) && out == Unseen(Concat(all[..i]), {})
    {
      var entries := EntriesOf(builds[i], expansions);
      seen, out := AppendUnseen(entries, seen, out, Concat(all[..i]));
      TakeNext(all, i);
      ConcatAppend(all[..i], entries);
    }
    assert all[..|builds|] == all;
  }

  lemma ExpandedEntries(builds: seq<string>, expansions: map<string, seq<string>>)
    ensures forall x :: x in Unseen(Concat(AllEntries(builds, expansions)), {}) <==>
                        exists i :: 0 <= i < |builds| && StandsFor(builds[i], expansions, x)
  {
    var all := AllEntries(builds, expansions);
    var flat := Concat(all);
    var out := Unseen(flat, {});
    forall x
      ensures x in out <==> exists i :: 0 <= i < |builds| && StandsFor(builds[i], expansions, x)
    {
      assert x in Elems(out) <==> x in Elems(flat);
      if x in flat {
        var i :| 0 <= i < |all| && x in all[i];
        assert StandsFor(builds[i], expansions, x);
      }
      if i :| 0 <= i < |builds| && StandsFor(builds[i], expansions, x) {
        assert x in all[i];
      }
    }
  }
}
