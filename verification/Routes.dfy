// Registrations as callers make them: patterns with optional segments, one
// after the other.
module Routes {
  import opened Wrappers
  import opened Patterns
  import opened PatternPieces
  import opened RouteTree
  import opened TreeLookup
  import opened Registration
  import opened OrderIndependence
  import opened Optional
  import opened FoldedLookup

  // Every pattern this one expands to begins with a slash and has braces around
  // whole segments only.
  predicate Simple(path: string)
    decreases |path|
  {
    CountOptional(path) > MAX_OPTIONAL ||
    match ExpandOptional(path)
    case NotOptional => Rooted(path)
    case Malformed => true
    case Both(without, with) => Simple(without) && Simple(with)
  }

  // Expands optional segments first, then registers pattern by pattern.
  function AddRoute(root: Tree, path: string, h: Handler, lib: Library): (r: Result<Tree>)
    requires Shape(root)
    ensures r.Ok? ==> Shape(r.value)
    decreases |path|
  {
    if CountOptional(path) > MAX_OPTIONAL then Panic
    else
      match ExpandOptional(path)
      case NotOptional =>
        if !lib.validText(path) then Panic
        else
          PatternShape(root, path, h, lib.compile);
          AddPattern(root, path, h, lib.compile)
      case Malformed => Panic
      case Both(without, with) =>
        match AddRoute(root, without, h, lib)
        case Ok(t) => AddRoute(t, with, h, lib)
        case Panic => Panic
  }

  function Entries(ps: seq<string>, h: Handler): (es: seq<Entry>)
    ensures |es| == |ps| && forall k | 0 <= k < |ps| :: es[k] == (ps[k], h)
  {
    if ps == [] then [] else [(ps[0], h)] + Entries(ps[1..], h)
  }

  lemma {:induction false} EntriesConcat(a: seq<string>, b: seq<string>, h: Handler)
    ensures Entries(a + b, h) == Entries(a, h) + Entries(b, h)
  {
    var es := Entries(a, h) + Entries(b, h);
    assert forall k | 0 <= k < |a + b| :: es[k] == ((a + b)[k], h);
  }

  lemma {:induction false} SimpleExpansions(path: string, lib: Library)
    requires Simple(path) && Expand(path, lib).Ok?
    ensures forall p | p in Expand(path, lib).value :: Rooted(p)
    decreases |path|
  {
    match ExpandOptional(path)
    case Both(without, with) =>
      SimpleExpansions(without, lib);
      SimpleExpansions(with, lib);
    case _ =>
  }

  lemma {:induction false} AddAllConcat(root: Tree, es: seq<Entry>, fs: seq<Entry>, compile: Compiler)
    requires Shape(root)
    ensures AddAll(root, es + fs, compile)
         == match AddAll(root, es, compile)
            case Ok(t) => AddAll(t, fs, compile)
            case Panic => Panic
    decreases |es|
  {
    if es == [] {
      assert es + fs == fs;
    } else {
      PatternShape(root, es[0].0, es[0].1, compile);
      hide AddPattern, Shape;
      assert (es + fs)[1..] == es[1..] + fs;
      var first := AddPattern(root, es[0].0, es[0].1, compile);
      if first.Ok? { AddAllConcat(first.value, es[1..], fs, compile); }
    }
  }

  // The entries of a registration, when the pattern can be expanded.
  function RouteEntries(path: string, h: Handler, lib: Library): Result<seq<Entry>> {
    match Expand(path, lib)
    case Ok(ps) => Ok(Entries(ps, h))
    case Panic => Panic
  }

  // Registering a pattern is registering its expansions in turn.
  lemma {:induction false} AddRouteIsExpansions(root: Tree, path: string, h: Handler, lib: Library)
    requires Shape(root)
    ensures match RouteEntries(path, h, lib)
            case Ok(es) => AddRoute(root, path, h, lib) == AddAll(root, es, lib.compile)
            case Panic => AddRoute(root, path, h, lib).Panic?
    decreases |path|
  {
    hide AddPattern, Shape, AddAll;
    if CountOptional(path) <= MAX_OPTIONAL {
      match ExpandOptional(path)
      case Both(without, with) =>
        AddRouteIsExpansions(root, without, h, lib);
        var r := AddRoute(root, without, h, lib);
        if r.Ok? {
          AddRouteIsExpansions(r.value, with, h, lib);
        }
        if Expand(path, lib).Ok? {
          var a, b := Expand(without, lib).value, Expand(with, lib).value;
          EntriesConcat(a, b, h);
          AddAllConcat(root, Entries(a, h), Entries(b, h), lib.compile);
        }
      case NotOptional =>
        if lib.validText(path) {
          AddOne(root, path, h, lib.compile);
        }
      case Malformed =>
    }
  }

  lemma AddOne(root: Tree, path: string, h: Handler, compile: Compiler)
    requires Shape(root)
    ensures Entries([path], h) == [(path, h)] && AddAll(root, [(path, h)], compile) == AddPattern(root, path, h, compile)
  {
    hide AddPattern, Shape;
    assert [path][1..] == [];
    var es := [(path, h)];
    assert es[1..] == [];
  }

  lemma EntriesRooted(path: string, h: Handler, lib: Library)
    requires Simple(path) && RouteEntries(path, h, lib).Ok?
    ensures forall e | e in RouteEntries(path, h, lib).value :: Rooted(e.0)
  {
    SimpleExpansions(path, lib);
    var es := RouteEntries(path, h, lib).value;
    forall e | e in es ensures Rooted(e.0) {
      var k :| 0 <= k < |es| && es[k] == e;
      assert Expand(path, lib).value[k] == e.0;
    }
  }

  // ---- Whole sequences ----

  function AddRoutes(root: Tree, rs: seq<Entry>, lib: Library): (r: Result<Tree>)
    requires Shape(root)
    ensures r.Ok? ==> Shape(r.value)
    decreases |rs|
  {
    if rs == [] then Ok(root)
    else
      match AddRoute(root, rs[0].0, rs[0].1, lib)
      case Ok(t) => AddRoutes(t, rs[1..], lib)
      case Panic => Panic
  }

  predicate Expands(e: Entry, lib: Library) { RouteEntries(e.0, e.1, lib).Ok? }

  // All single-pattern registrations of a sequence that expands throughout.
  function Flat(rs: seq<Entry>, lib: Library): seq<Entry>
    requires forall e | e in rs :: Expands(e, lib)
    decreases |rs|
  {
    if rs == [] then []
    else
      assert Expands(rs[0], lib);
      RouteEntries(rs[0].0, rs[0].1, lib).value + Flat(rs[1..], lib)
  }

  lemma {:induction false} FlatRooted(rs: seq<Entry>, lib: Library)
    requires forall e | e in rs :: Simple(e.0) && Expands(e, lib)
    ensures forall e | e in Flat(rs, lib) :: Rooted(e.0)
    decreases |rs|
  {
    if rs != [] {
      assert Expands(rs[0], lib);
      EntriesRooted(rs[0].0, rs[0].1, lib);
      FlatRooted(rs[1..], lib);
    }
  }

  lemma {:induction false} AddRoutesIsFlat(root: Tree, rs: seq<Entry>, lib: Library)
    requires Shape(root)
    ensures (exists e :: e in rs && !Expands(e, lib)) ==> AddRoutes(root, rs, lib).Panic?
    ensures (forall e | e in rs :: Expands(e, lib)) ==> AddRoutes(root, rs, lib) == AddAll(root, Flat(rs, lib), lib.compile)
    decreases |rs|
  {
    hide AddRoute, AddPattern, Shape;
    if rs != [] {
      var r := AddRoute(root, rs[0].0, rs[0].1, lib);
      AddRouteIsExpansions(root, rs[0].0, rs[0].1, lib);
      HeadTail(rs);
      if r.Ok? {
        AddRoutesIsFlat(r.value, rs[1..], lib);
      }
      if forall e | e in rs :: Expands(e, lib) {
        assert Expands(rs[0], lib);
        AddAllConcat(root, RouteEntries(rs[0].0, rs[0].1, lib).value, Flat(rs[1..], lib), lib.compile);
      }
    }
  }

  lemma {:induction false} FlatConcat(rs: seq<Entry>, ss: seq<Entry>, lib: Library)
    requires forall e | e in rs + ss :: Expands(e, lib)
    ensures (forall e | e in rs :: Expands(e, lib)) && (forall e | e in ss :: Expands(e, lib))
    ensures Flat(rs + ss, lib) == Flat(rs, lib) + Flat(ss, lib)
    decreases |rs|
  {
    assert forall e :: e in rs || e in ss ==> e in rs + ss;
    if rs == [] {
      assert rs + ss == ss;
    } else {
      assert (rs + ss)[1..] == rs[1..] + ss;
      FlatConcat(rs[1..], ss, lib);
    }
  }

  // The first element of one order, taken out of another.
  lemma TakeOut(rs: seq<Entry>, ss: seq<Entry>) returns (k: nat)
    requires multiset(rs) == multiset(ss) && rs != []
    ensures k < |ss| && ss[k] == rs[0]
    ensures ss == ss[..k] + ([rs[0]] + ss[k + 1..])
    ensures multiset(rs[1..]) == multiset(ss[..k] + ss[k + 1..])
  {
    var e, tail := rs[0], rs[1..];
    assert rs == [e] + tail;
    assert e in multiset(ss);
    k :| 0 <= k < |ss| && ss[k] == e;
    var a, b := ss[..k], ss[k + 1..];
    assert ss == a + ([e] + b);
    assert multiset(rs) == multiset{e} + multiset(tail);
    assert multiset(ss) == multiset{e} + multiset(a + b);
    assert multiset(tail) == multiset(rs) - multiset{e};
  }

  lemma FlatTakeOut(a: seq<Entry>, e: Entry, b: seq<Entry>, lib: Library)
    requires forall x | x in a + ([e] + b) :: Expands(x, lib)
    ensures (forall x | x in a + b :: Expands(x, lib)) && Expands(e, lib)
    ensures multiset(Flat(a + ([e] + b), lib))
         == multiset(RouteEntries(e.0, e.1, lib).value) + multiset(Flat(a + b, lib))
  {
    assert forall x | x in a + b :: x in a + ([e] + b);
    assert e in a + ([e] + b);
    FlatConcat(a, [e] + b, lib);
    FlatHead(e, b, lib);
    FlatConcat(a, b, lib);
  }

  lemma FlatHead(e: Entry, b: seq<Entry>, lib: Library)
    requires forall x | x in [e] + b :: Expands(x, lib)
    ensures Expands(e, lib) && (forall x | x in b :: Expands(x, lib))
    ensures Flat([e] + b, lib) == RouteEntries(e.0, e.1, lib).value + Flat(b, lib)
  {
    assert forall x | x in b :: x in [e] + b;
    assert ([e] + b)[0] == e && ([e] + b)[1..] == b;
  }

  lemma {:induction false} FlatPermuted(rs: seq<Entry>, ss: seq<Entry>, lib: Library)
    requires multiset(rs) == multiset(ss)
    requires (forall e | e in rs :: Expands(e, lib)) && (forall e | e in ss :: Expands(e, lib))
    ensures multiset(Flat(rs, lib)) == multiset(Flat(ss, lib))
    decreases |rs|
  {
    if rs == [] {
      assert |multiset(ss)| == |ss| && ss == [];
    } else {
      hide Flat, Expands, RouteEntries;
      var k := TakeOut(rs, ss);
      var a, b := ss[..k], ss[k + 1..];
      assert rs == [rs[0]] + rs[1..];
      FlatHead(rs[0], rs[1..], lib);
      FlatTakeOut(a, rs[0], b, lib);
      FlatPermuted(rs[1..], a + b, lib);
    }
  }

  // Every suffix fits, of every expansion.
  ghost predicate FitRoutes(rs: seq<Entry>, lib: Library) {
    (forall e | e in rs :: Expands(e, lib)) ==> Fitting(Flat(rs, lib), lib.compile)
  }

  // It is enough that no two expansions go on behind the same regular
  // expression parameter.
  lemma OneSuffixFitRoutes(rs: seq<Entry>, lib: Library)
    requires forall e | e in rs :: Simple(e.0)
    requires (forall e | e in rs :: Expands(e, lib)) ==> OneSuffix(multiset(Flat(rs, lib)))
    ensures FitRoutes(rs, lib)
  {
    if forall e | e in rs :: Expands(e, lib) {
      FlatRooted(rs, lib);
      OneSuffixFits(Flat(rs, lib), lib.compile);
    }
  }

  // With case folding, no two expansions are ambiguous.
  ghost predicate UnambiguousRoutes(rs: seq<Entry>, ci: bool, lib: Library) {
    (forall e | e in rs :: Expands(e, lib)) ==> Unambiguous(Flat(rs, lib), ci)
  }

  // Registering a set of patterns, optional segments included, succeeds in
  // every order or in none, and every order gives the same handler, pattern
  // and captures for every path, as far as every suffix fits in both orders
  // and case folding leaves nothing ambiguous.
  lemma RegistrationOrderIrrelevant(rs: seq<Entry>, ss: seq<Entry>, path: string, ci: bool, lib: Library)
    requires multiset(rs) == multiset(ss)
    requires forall e | e in rs + ss :: Simple(e.0)
    requires FitRoutes(rs, lib) && FitRoutes(ss, lib) && UnambiguousRoutes(rs, ci, lib)
    ensures AddRoutes(EMPTY_TREE, rs, lib).Ok? == AddRoutes(EMPTY_TREE, ss, lib).Ok?
    ensures AddRoutes(EMPTY_TREE, rs, lib).Ok? ==>
              var t, u := AddRoutes(EMPTY_TREE, rs, lib).value, AddRoutes(EMPTY_TREE, ss, lib).value;
              Walkable(t) && Walkable(u) && Lookup(t, path, ci).found == Lookup(u, path, ci).found
  {
    assert forall e :: e in rs <==> e in multiset(rs);
    assert forall e :: e in ss <==> e in multiset(ss);
    AddRoutesIsFlat(EMPTY_TREE, rs, lib);
    AddRoutesIsFlat(EMPTY_TREE, ss, lib);
    if forall e | e in rs :: Expands(e, lib) {
      FlatPermuted(rs, ss, lib);
      FlatRooted(rs, lib);
      FlatRooted(ss, lib);
      var es, fs := Flat(rs, lib), Flat(ss, lib);
      assert forall e: Entry | e in es + fs :: Rooted(e.0);
      OrderIrrelevant(es, fs, path, ci, lib.compile);
    } else {
      var e :| e in rs && !Expands(e, lib);
      assert e in ss;
    }
  }

  // After any sequence of successful registrations in which every suffix fits,
  // a lookup finds a handler exactly when some registered pattern, in one of
  // its expansions, describes the path; with case folding too, if that leaves
  // nothing ambiguous.
  lemma RegistrationsDecideLookups(rs: seq<Entry>, path: string, ci: bool, lib: Library)
    requires forall e | e in rs :: Simple(e.0)
    requires AddRoutes(EMPTY_TREE, rs, lib).Ok?
    ensures forall e | e in rs :: Expands(e, lib)
    ensures FitRoutes(rs, lib) ==>
              && var t, es := AddRoutes(EMPTY_TREE, rs, lib).value, Flat(rs, lib);
              && Registered(t, lib.compile) && Walkable(t)
              && (Unambiguous(es, ci) ==>
                    && (Lookup(t, path, ci).found.Some? <==> exists e :: e in es && Describes(e.0, path, ci, lib.compile))
                    && (Lookup(t, path, ci).found.Some? ==> Preferred(Lookup(t, path, ci).found.value, es, path, ci, lib.compile)))
  {
    AddRoutesIsFlat(EMPTY_TREE, rs, lib);
    if FitRoutes(rs, lib) {
      FlatRooted(rs, lib);
      hide Preferred, Unambiguous, Describes, AddRoutes, Flat, Expands, Lookup;
      UnambiguousExactly(Flat(rs, lib));
      FindsExactlyMatches(Flat(rs, lib), path, false, lib.compile);
      if Unambiguous(Flat(rs, lib), ci) { FindsExactlyMatches(Flat(rs, lib), path, ci, lib.compile); }
    }
  }

  // With case folding too, what a lookup finds is one of these expansions, and
  // the captures, written in, spell the path out up to case.
  lemma RegistrationsSpellLookups(rs: seq<Entry>, path: string, ci: bool, lib: Library)
    requires forall e | e in rs :: Simple(e.0)
    requires AddRoutes(EMPTY_TREE, rs, lib).Ok? && FitRoutes(rs, lib)
    ensures forall e | e in rs :: Expands(e, lib)
    ensures var t := AddRoutes(EMPTY_TREE, rs, lib).value;
            && Walkable(t)
            && match Lookup(t, path, ci).found
               case Some(f) =>
                 && (f.pattern, f.handler) in Flat(rs, lib) && Binds(f.pattern, f.caps, lib.compile)
                 && PrefixMatch(path, Substitute(f.pattern, f.caps), ci)
                 && Explains(f.pattern, f.caps, Substitute(f.pattern, f.caps), lib.compile)
               case None => true
  {
    AddRoutesIsFlat(EMPTY_TREE, rs, lib);
    EmptyIsRegistered(lib.compile);
    FlatRooted(rs, lib);
    FreshHasNoRoute(EMPTY_TREE);
    var es := Flat(rs, lib);
    AddAllRegisters(EMPTY_TREE, es, lib.compile);
    var t := AddRoutes(EMPTY_TREE, rs, lib).value;
    FoundSpells(t, path, ci, lib.compile);
    hide Lookup, Flat, AddRoutes, Explains, Binds, Substitute, PrefixMatch;
  }
}
