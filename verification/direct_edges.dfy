/** Properties of the direct phase: which edges the inner loop emits for one parent, how many,
    in what order, and what it records as found. */
module DirectEdgeProperties {
  import opened Results
  import opened PackageModel
  import opened PackageDependencies

  /** The number of edges in `es` with source `name` and `dev` flag `Some(dev)`. */
  function CountEdges(es: seq<Edge>, name: string, dev: bool): nat
    decreases |es|
  {
    if es == [] then 0
    else CountEdges(es[..|es| - 1], name, dev)
         + (if es[|es| - 1].source == name && es[|es| - 1].dev == Some(dev) then 1 else 0)
  }

  /** The number of candidates among `0 .. n-1`, other than the parent `i`, named `name`. */
  function OthersNamed(packages: seq<Package>, i: nat, name: string, n: nat): nat
    requires n <= |packages|
  {
    if n == 0 then 0
    else OthersNamed(packages, i, name, n - 1) + (if n - 1 != i && packages[n - 1].name == name then 1 else 0)
  }

  // ---------------------------------------------------------------------------

  /** A direct edge is exactly an edge some declaration of another package yields: the
      parent's own index is never paired with itself, and nothing else is emitted. */
  lemma {:induction false} DirectMembership(packages: seq<Package>, i: nat, n: nat)
    requires i < |packages| && n <= |packages|
    ensures forall e :: e in DirectUpTo(packages, i, n) <==>
      exists j :: 0 <= j < n && j != i &&
        (IsDeclaredEdge(packages[i], packages[j], false, e) || IsDeclaredEdge(packages[i], packages[j], true, e))
  {
    if n > 0 {
      DirectMembership(packages, i, n - 1);
      var parent := packages[i];
      CandidateMembership(parent, packages[n - 1]);
      var xs := DirectUpTo(packages, i, n - 1);
      var c := if n - 1 == i then [] else CandidateEdges(parent, packages[n - 1]);
      assert DirectUpTo(packages, i, n) == xs + c;
      forall e
        ensures e in DirectUpTo(packages, i, n) <==>
          exists j :: 0 <= j < n && j != i &&
            (IsDeclaredEdge(parent, packages[j], false, e) || IsDeclaredEdge(parent, packages[j], true, e))
      {
        if exists j :: 0 <= j < n && j != i &&
             (IsDeclaredEdge(parent, packages[j], false, e) || IsDeclaredEdge(parent, packages[j], true, e)) {
          var j :| 0 <= j < n && j != i &&
             (IsDeclaredEdge(parent, packages[j], false, e) || IsDeclaredEdge(parent, packages[j], true, e));
          if j == n - 1 {
            CandidateMembership(parent, packages[j]);
            assert e in CandidateEdges(parent, packages[j]);
          }
        }
      }
    }
  }

  /** A name is found for parent `i` exactly when another package carries it and one of the
      parent's maps declares it. */
  lemma FoundMembership(packages: seq<Package>, i: nat, name: string)
    requires i < |packages|
    ensures name in Found(packages, i) <==>
      exists j :: 0 <= j < |packages| && j != i && packages[j].name == name
        && (Declares(packages[i].dependencies, name) || Declares(packages[i].devDependencies, name))
  {
    var n := |packages|;
    DirectMembership(packages, i, n);
    var es := DirectUpTo(packages, i, n);
    var parent := packages[i];
    if name in Found(packages, i) {
      var k :| 0 <= k < |es| && Sources(es)[k] == name;
      assert es[k] in es;
    }
    if exists j :: 0 <= j < n && j != i && packages[j].name == name
         && (Declares(parent.dependencies, name) || Declares(parent.devDependencies, name)) {
      var j :| 0 <= j < n && j != i && packages[j].name == name
         && (Declares(parent.dependencies, name) || Declares(parent.devDependencies, name));
      var dev := !Declares(parent.dependencies, name);
      var e := DeclaredEdge(parent, packages[j], MapOf(parent, dev).value[name], dev);
      assert IsDeclaredEdge(parent, packages[j], dev, e);
      assert e in es;
      var k :| 0 <= k < |es| && es[k] == e;
      assert Sources(es)[k] == name;
    }
  }

  /** A name declared in neither of the parent's maps is never found, so an installed copy of
      it always gets a dedup edge. */
  lemma UndeclaredNotFound(packages: seq<Package>, i: nat, name: string)
    requires i < |packages|
    requires !Declares(packages[i].dependencies, name) && !Declares(packages[i].devDependencies, name)
    ensures name !in Found(packages, i)
  {
    FoundMembership(packages, i, name);
  }

  lemma {:induction false} CountAppend(a: seq<Edge>, b: seq<Edge>, name: string, dev: bool)
    ensures CountEdges(a + b, name, dev) == CountEdges(a, name, dev) + CountEdges(b, name, dev)
    decreases |b|
  {
    if b == [] {
      assert a + b == a;
    } else {
      var b' := b[..|b| - 1];
      assert (a + b)[..|a + b| - 1] == a + b';
      CountAppend(a, b', name, dev);
    }
  }

  lemma CandidateCount(parent: Package, dep: Package, name: string, dev: bool)
    ensures CountEdges(CandidateEdges(parent, dep), name, dev) ==
            (if dep.name == name && Declares(MapOf(parent, dev), name) then 1 else 0)
  {
    var c := CandidateEdges(parent, dep);
    if |c| == 2 {
      assert c[..1][..0] == [];
    } else if |c| == 1 {
      assert c[..0] == [];
    }
  }

  /** The count after visiting candidate `n - 1` is the count before plus what that candidate adds. */
  lemma CountDirectStep(packages: seq<Package>, i: nat, name: string, dev: bool, n: nat)
    requires i < |packages| && 0 < n <= |packages|
    ensures CountEdges(DirectUpTo(packages, i, n), name, dev) ==
            CountEdges(DirectUpTo(packages, i, n - 1), name, dev)
            + (if n - 1 != i && packages[n - 1].name == name && Declares(MapOf(packages[i], dev), name) then 1 else 0)
  {
    var xs := DirectUpTo(packages, i, n - 1);
    var c := if n - 1 == i then [] else CandidateEdges(packages[i], packages[n - 1]);
    assert DirectUpTo(packages, i, n) == xs + c;
    CountAppend(xs, c, name, dev);
    if n - 1 != i {
      CandidateCount(packages[i], packages[n - 1], name, dev);
    } else {
      assert CountEdges(c, name, dev) == 0;
    }
  }

  /** Edge count per declaration: parent `i` emits, for source `name` and map `dev`, one edge per
      other package named `name` when that map declares it, and none otherwise; an absent map
      counts as declaring nothing. */
  lemma {:induction false} DeclarationCount(packages: seq<Package>, i: nat, name: string, dev: bool, n: nat)
    requires i < |packages| && n <= |packages|
    ensures CountEdges(DirectUpTo(packages, i, n), name, dev) ==
            (if Declares(MapOf(packages[i], dev), name) then OthersNamed(packages, i, name, n) else 0)
  {
    if n > 0 {
      DeclarationCount(packages, i, name, dev, n - 1);
      CountDirectStep(packages, i, name, dev, n);
    }
  }

  lemma {:induction false} OthersNamedUnique(packages: seq<Package>, i: nat, j: nat, n: nat)
    requires UniqueNames(packages) && j < |packages| && j != i && n <= |packages|
    ensures OthersNamed(packages, i, packages[j].name, n) == if j < n then 1 else 0
  {
    if n > 0 {
      OthersNamedUnique(packages, i, j, n - 1);
    }
  }

  /** With distinct names, a declaration of another package `j` in the map selected by `dev`
      yields exactly one edge with that source and flag, and it carries the declared range and
      `j`'s own version and folder. */
  lemma ExactlyOneEdgePerDeclaration(packages: seq<Package>, i: nat, j: nat, dev: bool)
    requires UniqueNames(packages) && i < |packages| && j < |packages| && i != j
    requires Declares(MapOf(packages[i], dev), packages[j].name)
    ensures CountEdges(DirectEdges(packages, i), packages[j].name, dev) == 1
    ensures DeclaredEdge(packages[i], packages[j], MapOf(packages[i], dev).value[packages[j].name], dev)
            in DirectEdges(packages, i)
  {
    DeclarationCount(packages, i, packages[j].name, dev, |packages|);
    OthersNamedUnique(packages, i, j, |packages|);
    DirectMembership(packages, i, |packages|);
    var e := DeclaredEdge(packages[i], packages[j], MapOf(packages[i], dev).value[packages[j].name], dev);
    assert IsDeclaredEdge(packages[i], packages[j], dev, e);
  }

  /** A name declared in both maps yields two edges, a runtime one and a development one, each
      with its own declared range. */
  lemma DeclaredInBothMaps(packages: seq<Package>, i: nat, j: nat)
    requires UniqueNames(packages) && i < |packages| && j < |packages| && i != j
    requires Declares(packages[i].dependencies, packages[j].name)
    requires Declares(packages[i].devDependencies, packages[j].name)
    ensures CountEdges(DirectEdges(packages, i), packages[j].name, false) == 1
    ensures CountEdges(DirectEdges(packages, i), packages[j].name, true) == 1
    ensures DeclaredEdge(packages[i], packages[j], packages[i].dependencies.value[packages[j].name], false)
            in DirectEdges(packages, i)
    ensures DeclaredEdge(packages[i], packages[j], packages[i].devDependencies.value[packages[j].name], true)
            in DirectEdges(packages, i)
  {
    ExactlyOneEdgePerDeclaration(packages, i, j, false);
    ExactlyOneEdgePerDeclaration(packages, i, j, true);
  }

  /** Direct edges follow the input order of the candidates, and for one candidate the runtime
      edge precedes the development edge. */
  ghost predicate InCandidateOrder(packages: seq<Package>, es: seq<Edge>) {
    forall p, q :: 0 <= p < q < |es| ==>
      || Position(packages, es[p].source) < Position(packages, es[q].source)
      || (Position(packages, es[p].source) == Position(packages, es[q].source)
          && es[p].dev == Some(false) && es[q].dev == Some(true))
  }

  /** Every direct edge's source is the name of some candidate visited so far. */
  lemma {:induction false} DirectSourcesVisited(packages: seq<Package>, i: nat, n: nat)
    requires i < |packages| && n <= |packages|
    ensures forall e :: e in DirectUpTo(packages, i, n) ==> exists j :: 0 <= j < n && e.source == packages[j].name
  {
    if n > 0 {
      DirectSourcesVisited(packages, i, n - 1);
      CandidateShape(packages[i], packages[n - 1]);
      var xs := DirectUpTo(packages, i, n - 1);
      var c := if n - 1 == i then [] else CandidateEdges(packages[i], packages[n - 1]);
      assert DirectUpTo(packages, i, n) == xs + c;
      forall e: Edge | e in xs + c
        ensures exists j :: 0 <= j < n && e.source == packages[j].name
      {
        if e in xs {
          var j :| 0 <= j < n - 1 && e.source == packages[j].name;
          assert 0 <= j < n;
        } else {
          assert e in c;
          assert e.source == packages[n - 1].name;
        }
      }
    }
  }

  /** Under distinct names, the sources visited before candidate `m` sit before position `m`. */
  lemma DirectSourcesBefore(packages: seq<Package>, i: nat, m: nat)
    requires UniqueNames(packages) && i < |packages| && m < |packages|
    ensures forall e :: e in DirectUpTo(packages, i, m) ==> Position(packages, e.source) < m
  {
  }

  lemma OrderAppend(packages: seq<Package>, xs: seq<Edge>, c: seq<Edge>, es: seq<Edge>, m: int)
    requires es == xs + c
    requires InCandidateOrder(packages, xs)
    requires forall e :: e in xs ==> Position(packages, e.source) < m
    requires forall e :: e in c ==> Position(packages, e.source) == m
    requires |c| <= 2 && (|c| == 2 ==> c[0].dev == Some(false) && c[1].dev == Some(true))
    ensures InCandidateOrder(packages, es)
  {
  }

  /** The edges candidate `m` contributes all carry the source at position `m`, runtime first. */
  lemma CandidateAtPosition(packages: seq<Package>, i: nat, m: nat)
    requires UniqueNames(packages) && i < |packages| && m < |packages|
    ensures var c := if m == i then [] else CandidateEdges(packages[i], packages[m]);
      && (forall e :: e in c ==> Position(packages, e.source) == m)
      && |c| <= 2 && (|c| == 2 ==> c[0].dev == Some(false) && c[1].dev == Some(true))
  {
  }

  lemma {:induction false} DirectOrder(packages: seq<Package>, i: nat, n: nat)
    requires UniqueNames(packages) && i < |packages| && n <= |packages|
    ensures InCandidateOrder(packages, DirectUpTo(packages, i, n))
  {
    if n > 0 {
      var xs := DirectUpTo(packages, i, n - 1);
      var c := if n - 1 == i then [] else CandidateEdges(packages[i], packages[n - 1]);
      DirectOrder(packages, i, n - 1);
      DirectSourcesBefore(packages, i, n - 1);
      CandidateAtPosition(packages, i, n - 1);
      OrderAppend(packages, xs, c, DirectUpTo(packages, i, n), n - 1);
    }
  }
}
