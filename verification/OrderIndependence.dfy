// Sequences of registrations: when they succeed, what lookups then return, and
// that neither depends on their order.
module OrderIndependence {
  import opened Wrappers
  import opened Patterns
  import opened PatternPieces
  import opened RouteTree
  import opened RouteSet
  import opened TreeInsert
  import opened TreeLookup
  import opened CaseFolding
  import opened Registration

  type Entry = (string, Handler)

  // Registers the entries one after the other, up to the first panic.
  function AddAll(root: Tree, es: seq<Entry>, compile: Compiler): (r: Result<Tree>)
    requires Shape(root)
    ensures r.Ok? ==> Shape(r.value)
    decreases |es|
  {
    if es == [] then Ok(root)
    else
      PatternShape(root, es[0].0, es[0].1, compile);
      match AddPattern(root, es[0].0, es[0].1, compile)
      case Ok(t) => AddAll(t, es[1..], compile)
      case Panic => Panic
  }

  lemma EmptyIsRegistered(compile: Compiler)
    ensures Registered(EMPTY_TREE, compile)
  {
    FreshHasNoRoute(EMPTY_TREE);
  }

  // From a method's first registration on.
  function RegisterAll(es: seq<Entry>, compile: Compiler): (r: Result<Tree>)
    ensures r.Ok? ==> Shape(r.value)
  {
    AddAll(EMPTY_TREE, es, compile)
  }

  // ---- Suffixes of regular expression parameters ----

  // Each pattern's suffix fits where it would take over a child.
  ghost predicate FitsAll(root: Tree, es: seq<Entry>, compile: Compiler)
    requires Shape(root)
    decreases |es|
  {
    es == [] ||
    (RootFits(root, es[0].0, compile) &&
     (PatternShape(root, es[0].0, es[0].1, compile);
      var r := AddPattern(root, es[0].0, es[0].1, compile);
      r.Ok? ==> FitsAll(r.value, es[1..], compile)))
  }

  // From a method's first registration on.
  ghost predicate Fitting(es: seq<Entry>, compile: Compiler) { FitsAll(EMPTY_TREE, es, compile) }

  // No two patterns go on behind the same regular expression parameter.
  ghost predicate OneSuffix(m: multiset<Entry>) {
    && (forall e | e in m && m[e] >= 2 :: !Second(e.0, e.0))
    && forall e, f | e in m && f in m && e != f :: !Second(e.0, f.0)
  }

  // None of the patterns adds to a suffix that is there.
  ghost predicate NoneSecond(root: Tree, es: seq<Entry>) {
    forall s, x, e | HasRoute(root, s, x) && e in es :: !Second(s, e.0)
  }

  // Then every suffix fits.
  lemma OneSuffixFits(es: seq<Entry>, compile: Compiler)
    requires (forall e | e in es :: Rooted(e.0)) && OneSuffix(multiset(es))
    ensures Fitting(es, compile)
  {
    EmptyIsRegistered(compile);
    FreshHasNoRoute(EMPTY_TREE);
    NoneSecondFits(EMPTY_TREE, es, compile);
  }

  lemma {:induction false} NoneSecondFits(root: Tree, es: seq<Entry>, compile: Compiler)
    requires Registered(root, compile) && Shape(root) && forall e | e in es :: Rooted(e.0)
    requires OneSuffix(multiset(es)) && NoneSecond(root, es)
    ensures FitsAll(root, es, compile)
    decreases |es|
  {
    if es != [] {
      NoSecondAmong(root, es[0].0, compile);
      NoSecondFits(root, es[0].0, compile);
      AddPatternRegisters(root, es[0].0, es[0].1, compile);
      PatternShape(root, es[0].0, es[0].1, compile);
      var first := AddPattern(root, es[0].0, es[0].1, compile);
      if first.Ok? {
        OneSuffixTail(es);
        NoneSecondNext(root, first.value, es);
        NoneSecondFits(first.value, es[1..], compile);
      }
    }
  }

  lemma OneSuffixTail(es: seq<Entry>)
    requires es != [] && OneSuffix(multiset(es))
    ensures OneSuffix(multiset(es[1..])) && forall e | e in es[1..] :: !Second(es[0].0, e.0)
  {
    assert es == [es[0]] + es[1..];
    assert multiset(es) == multiset{es[0]} + multiset(es[1..]);
    forall e | e in es[1..] ensures !Second(es[0].0, e.0) {
      assert e in multiset(es[1..]);
    }
  }

  lemma NoneSecondNext(root: Tree, t: Tree, es: seq<Entry>)
    requires es != [] && OneSuffix(multiset(es)) && NoneSecond(root, es) && Adds(root, t, es[0].0, es[0].1)
    ensures NoneSecond(t, es[1..])
  {
    OneSuffixTail(es);
    HeadTail(es);
  }

  // Every pattern is valid and no two of them conflict.
  ghost predicate Compatible(es: seq<Entry>, compile: Compiler) {
    && (forall e | e in es :: Valid(e.0, compile))
    && forall i, j | 0 <= i < j < |es| :: !Conflict(es[i].0, es[j].0)
  }

  ghost predicate NoClash(root: Tree, es: seq<Entry>) {
    forall e | e in es :: !Clash(root, e.0)
  }

  ghost predicate Holds(t: Tree, root: Tree, es: seq<Entry>) {
    forall s, x :: HasRoute(t, s, x) <==> HasRoute(root, s, x) || (s, x) in es
  }

  lemma CompatibleTail(es: seq<Entry>, compile: Compiler)
    requires es != []
    ensures Compatible(es, compile) <==>
              && Valid(es[0].0, compile) && Compatible(es[1..], compile)
              && forall e | e in es[1..] :: !Conflict(es[0].0, e.0)
  {
    var tail := es[1..];
    if Valid(es[0].0, compile) && Compatible(tail, compile) && forall e | e in tail :: !Conflict(es[0].0, e.0) {
      forall i, j | 0 <= i < j < |es| ensures !Conflict(es[i].0, es[j].0) {
        assert es[j] == tail[j - 1];
        if i > 0 { assert es[i] == tail[i - 1]; }
      }
    }
    if Compatible(es, compile) {
      forall e | e in tail ensures !Conflict(es[0].0, e.0) {
        var j :| 0 <= j < |tail| && tail[j] == e;
        assert es[j + 1] == e;
      }
      forall i, j | 0 <= i < j < |tail| ensures !Conflict(tail[i].0, tail[j].0) {
        assert es[i + 1] == tail[i] && es[j + 1] == tail[j];
      }
    }
  }

  lemma HeadTail(es: seq<Entry>)
    requires es != []
    ensures forall e :: e in es <==> e == es[0] || e in es[1..]
  {
    assert es == [es[0]] + es[1..];
  }

  // A sequence is accepted exactly when its patterns are compatible with one
  // another and with what is there, and then exactly they are added, as long
  // as every suffix fits.
  lemma {:induction false} AddAllRegisters(root: Tree, es: seq<Entry>, compile: Compiler)
    requires Registered(root, compile) && Shape(root) && forall e | e in es :: Rooted(e.0)
    requires FitsAll(root, es, compile)
    ensures var r := AddAll(root, es, compile);
            && (r.Ok? <==> Compatible(es, compile) && NoClash(root, es))
            && (r.Ok? ==> Registered(r.value, compile) && Holds(r.value, root, es))
    decreases |es|
  {
    if es != [] {
      AddPatternRegisters(root, es[0].0, es[0].1, compile);
      var first := AddPattern(root, es[0].0, es[0].1, compile);
      CompatibleTail(es, compile);
      HeadTail(es);
      if first.Ok? {
        PatternShape(root, es[0].0, es[0].1, compile);
        AddAllRegisters(first.value, es[1..], compile);
        ClashAfter(root, first.value, es[0]);
      }
    }
  }

  lemma ClashAfter(root: Tree, t: Tree, e: Entry)
    requires Adds(root, t, e.0, e.1)
    ensures forall p :: Clash(t, p) <==> Clash(root, p) || Conflict(e.0, p)
  {
    assert HasRoute(t, e.0, e.1);
    forall p ensures Clash(t, p) <==> Clash(root, p) || Conflict(e.0, p) {
      if Clash(root, p) {
        var s, x :| HasRoute(root, s, x) && Conflict(s, p);
        assert HasRoute(t, s, x);
      }
    }
  }

  // ---- Lookups in a registered tree ----

  // The lookup returns the best match, with the captures the matcher assigns
  // to it, and finds nothing exactly when no registered pattern matches.
  lemma LookupIsBest(root: Tree, path: string, ci: bool, compile: Compiler)
    requires Registered(root, compile) && OneWay(root, ci)
    ensures Walkable(root)
    ensures match Lookup(root, path, ci).found
            case Some(f) => Best(root, path, f.pattern, f.handler, ci, compile) && f.caps == Captures(f.pattern, path)
            case None => NoMatch(root, path, ci, compile)
  {
    RootShape(root, compile);
    if Fresh(root) {
      FreshHasNoRoute(root);
    } else {
      SearchAnswers(root, "", path, false, ci, compile);
      var o := Search(root, path, ci, false);
      if o.Hit? { assert o.found.pattern[|""|..] == o.found.pattern; }
    }
  }

  // No byte leads to two children, if with case folding no two registered
  // patterns are ambiguous.
  lemma RegisteredOneWay(root: Tree, ci: bool, compile: Compiler)
    requires Registered(root, compile) && (ci ==> Unclashing(root))
    ensures OneWay(root, ci)
  {
    if !Fresh(root) {
      if ci { UnclashingOneWay(root, "", compile); } else { WellFormedOneWay(root, "", compile); }
    }
  }

  // Written piece by piece as documented, the returned pattern has the names
  // the captures have, each value is one its parameter may hold, and with the
  // values in the places of the parameters the pattern gives the path.
  lemma CapturesRoundTrip(root: Tree, path: string, compile: Compiler)
    requires Registered(root, compile)
    ensures Walkable(root)
    ensures match Lookup(root, path, false).found
            case Some(f) =>
              && Binds(f.pattern, f.caps, compile) && Substitute(f.pattern, f.caps) == path
              && Explains(f.pattern, f.caps, path, compile)
            case None => true
  {
    RegisteredOneWay(root, false, compile);
    LookupIsBest(root, path, false, compile);
    match Lookup(root, path, false).found
    case Some(f) =>
      FoundValid(root, path, f, compile);
      hide Lookup, Best, Explains;
      CapturesBind(f.pattern, path, compile);
      BindingExplains(f.pattern, f.caps, compile);
    case None =>
  }

  lemma FoundValid(root: Tree, path: string, f: Found, compile: Compiler)
    requires Registered(root, compile) && Best(root, path, f.pattern, f.handler, false, compile)
    ensures Valid(f.pattern, compile) && Matches(f.pattern, path, compile)
  {
    RegisteredValid(root, f.pattern, f.handler, compile);
    DescribesExactly(f.pattern, path, compile);
  }

  // With case folding, no two patterns are ambiguous.
  ghost predicate Unambiguous(es: seq<Entry>, ci: bool) {
    ci ==> forall e, f | e in es && f in es :: !CaseClash(e.0, f.0)
  }

  lemma UnambiguousExactly(es: seq<Entry>)
    ensures Unambiguous(es, false)
  {
  }

  lemma HoldsUnambiguous(t: Tree, es: seq<Entry>, ci: bool)
    requires Holds(t, EMPTY_TREE, es) && Unambiguous(es, ci)
    ensures ci ==> Unclashing(t)
  {
    FreshHasNoRoute(EMPTY_TREE);
    if ci {
      forall s, x, r, y | HasRoute(t, s, x) && HasRoute(t, r, y) ensures !CaseClash(s, r) {
        assert (s, x) in es && (r, y) in es;
      }
    }
  }

  // The entry found describes the path, with these captures, and is preferred
  // to all others that do.
  ghost predicate Preferred(f: Found, es: seq<Entry>, path: string, ci: bool, compile: Compiler) {
    && (f.pattern, f.handler) in es && Describes(f.pattern, path, ci, compile) && f.caps == Captures(f.pattern, path)
    && forall e | e in es && Describes(e.0, path, ci, compile) :: e.0 == f.pattern || Prefers(f.pattern, e.0)
  }

  // After any sequence of successful registrations, a path is found exactly
  // when a registered pattern describes it, with or without case folding.
  lemma FindsExactlyMatches(es: seq<Entry>, path: string, ci: bool, compile: Compiler)
    requires (forall e | e in es :: Rooted(e.0)) && Fitting(es, compile) && Unambiguous(es, ci)
    requires RegisterAll(es, compile).Ok?
    ensures var t := RegisterAll(es, compile).value;
            && Registered(t, compile) && Walkable(t)
            && (Lookup(t, path, ci).found.Some? <==> exists e :: e in es && Describes(e.0, path, ci, compile))
            && (Lookup(t, path, ci).found.Some? ==> Preferred(Lookup(t, path, ci).found.value, es, path, ci, compile))
  {
    EmptyIsRegistered(compile);
    AddAllRegisters(EMPTY_TREE, es, compile);
    FreshHasNoRoute(EMPTY_TREE);
    var t := RegisterAll(es, compile).value;
    BestIn(t, path, es, ci, compile);
    forall e | e in es ensures HasRoute(t, e.0, e.1) {
      assert e == (e.0, e.1);
    }
  }

  // ---- Order ----

  ghost predicate Distinct(es: seq<Entry>) {
    forall i, j | 0 <= i < j < |es| :: es[i] != es[j]
  }

  lemma {:induction false} DistinctOnce(es: seq<Entry>)
    ensures Distinct(es) <==> forall e | e in multiset(es) :: multiset(es)[e] == 1
  {
    if es != [] {
      var init, e := es[..|es| - 1], Last(es);
      assert es == init + [e];
      DistinctOnce(init);
      if Distinct(es) {
        assert Distinct(init) && e !in init;
        assert multiset(init)[e] == 0;
      } else if Distinct(init) {
        var i, j :| 0 <= i < j < |es| && es[i] == es[j];
        assert j == |es| - 1 && init[i] == e;
        assert multiset(es)[e] >= 2;
      } else {
        var d :| d in multiset(init) && multiset(init)[d] != 1;
        assert multiset(es)[d] > 1;
      }
    }
  }

  // Compatibility, said without an order.
  ghost predicate CompatibleSet(m: multiset<Entry>, compile: Compiler) {
    && (forall e | e in m :: Valid(e.0, compile) && m[e] == 1)
    && forall e, f | e in m && f in m && e != f :: !Conflict(e.0, f.0)
  }

  lemma CompatibleGivesSet(es: seq<Entry>, compile: Compiler)
    requires Compatible(es, compile)
    ensures CompatibleSet(multiset(es), compile)
  {
    forall i, j | 0 <= i < j < |es| ensures es[i] != es[j] {
      ConflictReflexive(es[i].0);
    }
    DistinctOnce(es);
    forall e, f | e in es && f in es && e != f ensures !Conflict(e.0, f.0) {
      var i :| 0 <= i < |es| && es[i] == e;
      var j :| 0 <= j < |es| && es[j] == f;
      ConflictSymmetric(e.0, f.0);
    }
  }

  lemma SetGivesCompatible(es: seq<Entry>, compile: Compiler)
    requires CompatibleSet(multiset(es), compile)
    ensures Compatible(es, compile)
  {
    DistinctOnce(es);
    forall i, j | 0 <= i < j < |es| ensures !Conflict(es[i].0, es[j].0) {
      assert es[i] in multiset(es) && es[j] in multiset(es) && es[i] != es[j];
    }
  }

  lemma CompatibleIsUnordered(es: seq<Entry>, compile: Compiler)
    ensures Compatible(es, compile) <==> CompatibleSet(multiset(es), compile)
  {
    if Compatible(es, compile) { CompatibleGivesSet(es, compile); }
    if CompatibleSet(multiset(es), compile) { SetGivesCompatible(es, compile); }
  }

  // Two best matches for the same registered set are the same match.
  lemma BestIsUnique(t: Tree, u: Tree, path: string, s: string, g: Handler, r: string, h: Handler, es: seq<Entry>, ci: bool, compile: Compiler)
    requires Holds(t, EMPTY_TREE, es) && Holds(u, EMPTY_TREE, es) && Compatible(es, compile) && Unambiguous(es, ci)
    requires Best(t, path, s, g, ci, compile) && Best(u, path, r, h, ci, compile)
    ensures s == r && g == h
  {
    FreshHasNoRoute(EMPTY_TREE);
    assert HasRoute(u, s, g) && HasRoute(t, r, h);
    CompatibleIsUnordered(es, compile);
    assert (s, g) in multiset(es) && (r, h) in multiset(es);
    if s != r {
      DescribedRanked(s, r, path, ci, compile);
    } else if g != h {
      ConflictReflexive(s);
    }
  }

  // Whether a set of registrations is accepted, and what every lookup then
  // returns, with case folding too if that leaves no two of them ambiguous,
  // does not depend on the order they are made in.
  lemma OrderIrrelevant(es: seq<Entry>, fs: seq<Entry>, path: string, ci: bool, compile: Compiler)
    requires multiset(es) == multiset(fs) && Fitting(es, compile) && Fitting(fs, compile) && Unambiguous(es, ci)
    requires forall e | e in es + fs :: Rooted(e.0)
    ensures RegisterAll(es, compile).Ok? == RegisterAll(fs, compile).Ok?
    ensures RegisterAll(es, compile).Ok? ==>
              var t, u := RegisterAll(es, compile).value, RegisterAll(fs, compile).value;
              Walkable(t) && Walkable(u) && Lookup(t, path, ci).found == Lookup(u, path, ci).found
  {
    assert forall e :: e in fs <==> e in multiset(fs);
    assert forall e :: e in es <==> e in multiset(es);
    FreshHasNoRoute(EMPTY_TREE);
    EmptyIsRegistered(compile);
    AddAllRegisters(EMPTY_TREE, es, compile);
    AddAllRegisters(EMPTY_TREE, fs, compile);
    CompatibleIsUnordered(es, compile);
    CompatibleIsUnordered(fs, compile);
    if RegisterAll(es, compile).Ok? {
      var t, u := RegisterAll(es, compile).value, RegisterAll(fs, compile).value;
      assert Holds(u, EMPTY_TREE, es);
      SameAnswer(t, u, path, es, ci, compile);
    }
  }

  lemma SameAnswer(t: Tree, u: Tree, path: string, es: seq<Entry>, ci: bool, compile: Compiler)
    requires Registered(t, compile) && Registered(u, compile) && Unambiguous(es, ci)
    requires Holds(t, EMPTY_TREE, es) && Holds(u, EMPTY_TREE, es) && Compatible(es, compile)
    ensures Walkable(t) && Walkable(u) && Lookup(t, path, ci).found == Lookup(u, path, ci).found
  {
    BestIn(t, path, es, ci, compile);
    BestIn(u, path, es, ci, compile);
    FreshHasNoRoute(EMPTY_TREE);
    assert forall s, x :: HasRoute(t, s, x) <==> HasRoute(u, s, x);
    var a, b := Lookup(t, path, ci).found, Lookup(u, path, ci).found;
    if a.Some? && b.Some? {
      BestIsUnique(t, u, path, a.value.pattern, a.value.handler, b.value.pattern, b.value.handler, es, ci, compile);
    }
  }

  lemma BestIn(t: Tree, path: string, es: seq<Entry>, ci: bool, compile: Compiler)
    requires Registered(t, compile) && Holds(t, EMPTY_TREE, es) && Unambiguous(es, ci)
    ensures Walkable(t)
    ensures match Lookup(t, path, ci).found
            case Some(f) => Best(t, path, f.pattern, f.handler, ci, compile) && f.caps == Captures(f.pattern, path)
            case None => NoMatch(t, path, ci, compile)
  {
    HoldsUnambiguous(t, es, ci);
    RegisteredOneWay(t, ci, compile);
    LookupIsBest(t, path, ci, compile);
  }
}
