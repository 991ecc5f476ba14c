// Registration patterns and what they mean, independently of any tree.
//
// A pattern is a string of bytes (a `char` stands for one byte). It is read
// left to right as literal bytes, parameters that take a whole segment (`:name`
// or `{name:expr}`), and at most one catch-all (`/*name`, at the end).
module Patterns {
  import opened Wrappers

  // A compiled regular expression is the set of segments it accepts.
  type Regexp = string -> bool

  // How the regexp library compiles an expression, when it does.
  type Compiler = string -> Option<Regexp>

  // Where the name in a `{name:expr}` token may end at the latest.
  const MAX_NAME_END := 255

  datatype Param = Param(key: string, value: string)

  // The first element of a pattern and what follows it.
  datatype Head =
    | End
    | Named(token: string, rest: string)
    | CatchAll(token: string)
    | Literal(c: char, rest: string)

  predicate IsMark(c: char) { c == ':' || c == '*' || c == '{' }

  predicate Plain(s: string) { forall k | 0 <= k < |s| :: !IsMark(s[k]) }

  // Position of the first '/', or the length when there is none.
  function SegmentEnd(s: string): (e: nat)
    ensures e <= |s|
    ensures forall k | 0 <= k < e :: s[k] != '/'
    ensures e < |s| ==> s[e] == '/'
  {
    if s == "" || s[0] == '/' then 0 else 1 + SegmentEnd(s[1..])
  }

  function LastIndexOf(s: string, c: char): (k: int)
    ensures -1 <= k < |s|
    ensures k >= 0 ==> s[k] == c
    ensures forall i | k < i < |s| :: s[i] != c
  {
    if s == "" then -1
    else if s[|s| - 1] == c then |s| - 1
    else LastIndexOf(s[..|s| - 1], c)
  }

  function IndexOf(s: string, c: char): (k: int)
    ensures -1 <= k < |s|
    ensures k >= 0 ==> s[k] == c
    ensures forall i | 0 <= i < (if k < 0 then |s| else k) :: s[i] != c
  {
    if s == "" then -1
    else if s[0] == c then 0
    else var k := IndexOf(s[1..], c); if k < 0 then -1 else k + 1
  }

  // ---- Tokens ----

  // A whole segment that is one parameter.
  predicate IsToken(s: string) {
    s != "" && (s[0] == ':' || (s[0] == '{' && s[|s| - 1] == '}'))
  }

  // Where the name of a `{name:expr}` token ends, or 0.
  function NameEnd(token: string): nat { if token == "" then 0 else IndexOf(token[1..], ':') + 1 }

  function TokenName(token: string): (name: string)
    ensures IsToken(token) && token[0] == ':' ==> name == token[1..]
  {
    if token == "" then "" else if token[0] == '{' && NameEnd(token) > 0 then token[1..NameEnd(token)] else token[1..]
  }

  function TokenExpr(token: string): string
    requires IsToken(token) && token[0] == '{' && NameEnd(token) > 0
  {
    token[1 + NameEnd(token)..|token| - 1]
  }

  // Whether a registration accepts the token.
  predicate GoodToken(token: string, compile: Compiler) {
    && IsToken(token)
    && if token[0] == ':' then CleanName(token[1..])
       else 0 < NameEnd(token) <= MAX_NAME_END && compile(TokenExpr(token)).Some?
  }

  // Whether the parameter takes this segment.
  predicate Takes(token: string, segment: string, compile: Compiler) {
    segment != "" && GoodToken(token, compile) && (token[0] == '{' ==> compile(TokenExpr(token)).value(segment))
  }

  function Uncons(p: string): (h: Head)
    ensures h.End? <==> p == ""
    ensures h.Named? ==> p == h.token + h.rest && IsToken(h.token)
    ensures h.Literal? ==> p == [h.c] + h.rest
  {
    if p == "" then End
    else if IsToken(p[..SegmentEnd(p)]) then Named(p[..SegmentEnd(p)], p[SegmentEnd(p)..])
    else if |p| >= 2 && p[0] == '/' && p[1] == '*' then CatchAll(p)
    else Literal(p[0], p[1..])
  }

  predicate CleanName(name: string) {
    name != "" && forall k | 0 <= k < |name| :: name[k] != '/' && name[k] != ':' && name[k] != '*'
  }

  // Patterns a registration may accept.
  predicate Valid(p: string, compile: Compiler)
    decreases |p|
  {
    match Uncons(p)
    case End => true
    case Named(token, rest) => GoodToken(token, compile) && Valid(rest, compile)
    case CatchAll(token) => CleanName(token[2..])
    case Literal(c, rest) => !IsMark(c) && Valid(rest, compile)
  }

  // No text follows a closing brace within its segment: the patterns this
  // module gives meaning to.
  predicate Tidy(p: string)
    decreases |p|
  {
    match Uncons(p)
    case End => true
    case Named(_, rest) => Tidy(rest)
    case CatchAll(_) => true
    case Literal(c, rest) => if c == '{' then '}' !in p[..SegmentEnd(p)] else c == '*' || Tidy(rest)
  }

  // The declarative matcher: which request paths a pattern describes.
  predicate Matches(pat: string, path: string, compile: Compiler)
    decreases |pat|
  {
    match Uncons(pat)
    case End => path == ""
    case Named(token, rest) =>
      var e := SegmentEnd(path); Takes(token, path[..e], compile) && Matches(rest, path[e..], compile)
    case CatchAll(_) => path != "" && path[0] == '/'
    case Literal(c, rest) => path != "" && path[0] == c && Matches(rest, path[1..], compile)
  }

  // What the wildcards of a pattern capture of a path that it matches.
  function Captures(pat: string, path: string): (caps: seq<Param>)
    decreases |pat|
  {
    match Uncons(pat)
    case End => []
    case Named(token, rest) =>
      var e := SegmentEnd(path);
      [Param(TokenName(token), path[..e])] + Captures(rest, path[e..])
    case CatchAll(token) => [Param(token[2..], path)]
    case Literal(_, rest) => if path == "" then [] else Captures(rest, path[1..])
  }

  // Names of the wildcards of a pattern, in pattern order.
  function Names(pat: string): seq<string>
    decreases |pat|
  {
    match Uncons(pat)
    case End => []
    case Named(token, rest) => [TokenName(token)] + Names(rest)
    case CatchAll(token) => [token[2..]]
    case Literal(_, rest) => Names(rest)
  }

  // `caps` binds exactly the wildcards of `pat`, in order, each to a value a
  // wildcard of its kind may take.
  predicate Binds(pat: string, caps: seq<Param>, compile: Compiler)
    decreases |pat|
  {
    match Uncons(pat)
    case End => caps == []
    case Named(token, rest) =>
      caps != [] && caps[0].key == TokenName(token) && Takes(token, caps[0].value, compile) &&
      '/' !in caps[0].value && Binds(rest, caps[1..], compile)
    case CatchAll(token) =>
      |caps| == 1 && caps[0].key == token[2..] && caps[0].value != "" && caps[0].value[0] == '/'
    case Literal(_, rest) => Binds(rest, caps, compile)
  }

  // The path obtained by writing each value in the place of its wildcard.
  function Substitute(pat: string, caps: seq<Param>): string
    decreases |pat|
  {
    match Uncons(pat)
    case End => ""
    case Named(_, rest) => if caps == [] then "" else caps[0].value + Substitute(rest, caps[1..])
    case CatchAll(_) => if caps == [] then "" else caps[0].value
    case Literal(c, rest) => [c] + Substitute(rest, caps)
  }

  // Two patterns that may not be registered together.
  predicate Conflict(p: string, q: string)
    decreases |p|
  {
    match (Uncons(p), Uncons(q))
    case (End, End) => true
    case (CatchAll(_), CatchAll(_)) => true
    case (CatchAll(_), Literal(d, _)) => d == '/'
    case (Literal(c, _), CatchAll(_)) => c == '/'
    case (Named(s, p'), Named(t, q')) => s == t ==> Conflict(p', q')
    case (Literal(c, p'), Literal(d, q')) => c == d && Conflict(p', q')
    case _ => false
  }

  // `p` has a literal byte where `q` has its first differing wildcard.
  predicate Prefers(p: string, q: string)
    decreases |p|
  {
    match (Uncons(p), Uncons(q))
    case (Literal(_, _), Named(_, _)) => true
    case (Named(s, p'), Named(t, q')) => s == t && Prefers(p', q')
    case (Literal(c, p'), Literal(d, q')) => c == d && Prefers(p', q')
    case _ => false
  }

  // Both patterns go on behind the same regular expression parameter.
  predicate Second(p: string, q: string)
    decreases |p|
  {
    match (Uncons(p), Uncons(q))
    case (Named(s, p'), Named(t, q')) => s == t && ((s[0] == '{' && p' != "" && q' != "") || Second(p', q'))
    case (Literal(c, p'), Literal(d, q')) => c == d && Second(p', q')
    case _ => false
  }

  // ---- Strings ----

  lemma Concat(a: string, b: string, c: string)
    ensures a + (b + c) == (a + b) + c
  {
  }

  lemma Cut(u: string, v: string)
    ensures (u + v)[..|u|] == u && (u + v)[|u|..] == v
  {
  }

  lemma Rejoined(s: string, i: nat)
    requires i <= |s|
    ensures s[..i] + s[i..] == s
  {
  }

  // ---- Segments ----

  lemma {:induction false} SegmentEndIs(s: string, e: nat)
    requires e <= |s|
    requires forall k | 0 <= k < e :: s[k] != '/'
    requires e < |s| ==> s[e] == '/'
    ensures SegmentEnd(s) == e
  {
    if e > 0 {
      SegmentEndIs(s[1..], e - 1);
    }
  }

  // ---- Matching is having a binding ----

  // What follows a named parameter instantiates to something that starts a
  // new segment.
  lemma SubstituteTail(rest: string, caps: seq<Param>, compile: Compiler)
    requires Binds(rest, caps, compile)
    requires rest == "" || rest[0] == '/'
    ensures var t := Substitute(rest, caps); t == "" || t[0] == '/'
  {
  }

  lemma {:induction false} CapturesBind(pat: string, path: string, compile: Compiler)
    requires Matches(pat, path, compile)
    ensures Binds(pat, Captures(pat, path), compile)
    ensures Substitute(pat, Captures(pat, path)) == path
    decreases |pat|
  {
    hide Takes, GoodToken, TokenName, SegmentEnd;
    match Uncons(pat)
    case End =>
    case Named(token, rest) =>
      var e := SegmentEnd(path);
      CapturesBind(rest, path[e..], compile);
      SegmentBinds(pat, path, compile);
    case CatchAll(_) =>
    case Literal(_, rest) => CapturesBind(rest, path[1..], compile);
  }

  lemma SegmentBinds(pat: string, path: string, compile: Compiler)
    requires Uncons(pat).Named? && Takes(Uncons(pat).token, path[..SegmentEnd(path)], compile)
    requires var rest, tail := Uncons(pat).rest, path[SegmentEnd(path)..];
             Binds(rest, Captures(rest, tail), compile) && Substitute(rest, Captures(rest, tail)) == tail
    ensures Binds(pat, Captures(pat, path), compile) && Substitute(pat, Captures(pat, path)) == path
  {
    var e := SegmentEnd(path);
    assert '/' !in path[..e];
    hide Takes, SegmentEnd, TokenName, Uncons;
    var rest := Uncons(pat).rest;
    var caps := [Param(TokenName(Uncons(pat).token), path[..e])] + Captures(rest, path[e..]);
    assert Captures(pat, path) == caps && caps[1..] == Captures(rest, path[e..]);
    Rejoined(path, e);
  }

  lemma {:induction false} BindingMatches(pat: string, caps: seq<Param>, compile: Compiler)
    requires Binds(pat, caps, compile)
    ensures Matches(pat, Substitute(pat, caps), compile)
    ensures Captures(pat, Substitute(pat, caps)) == caps
    decreases |pat|
  {
    hide Takes, GoodToken, TokenName;
    var path := Substitute(pat, caps);
    match Uncons(pat)
    case End =>
    case Named(token, rest) =>
      var tail := Substitute(rest, caps[1..]);
      SubstituteTail(rest, caps[1..], compile);
      SegmentEndIs(path, |caps[0].value|);
      assert path[|caps[0].value|..] == tail && path[..|caps[0].value|] == caps[0].value;
      BindingMatches(rest, caps[1..], compile);
      assert caps == [caps[0]] + caps[1..];
    case CatchAll(_) =>
    case Literal(c, rest) =>
      assert path[1..] == Substitute(rest, caps);
      BindingMatches(rest, caps, compile);
  }

  // A path matches a pattern exactly when some binding of its wildcards
  // spells the path out, and the captures are the only such binding.
  lemma MatchesIffInstance(pat: string, path: string, compile: Compiler)
    ensures Matches(pat, path, compile) <==> exists caps :: Binds(pat, caps, compile) && Substitute(pat, caps) == path
    ensures forall caps :: Binds(pat, caps, compile) && Substitute(pat, caps) == path ==>
              Matches(pat, path, compile) && caps == Captures(pat, path)
  {
    if Matches(pat, path, compile) { CapturesBind(pat, path, compile); }
    forall caps | Binds(pat, caps, compile) && Substitute(pat, caps) == path
      ensures Matches(pat, path, compile) && caps == Captures(pat, path)
    {
      BindingMatches(pat, caps, compile);
    }
  }

  lemma {:induction false} BoundNames(pat: string, caps: seq<Param>, compile: Compiler)
    requires Binds(pat, caps, compile)
    ensures |caps| == |Names(pat)|
    ensures forall k | 0 <= k < |caps| :: caps[k].key == Names(pat)[k]
    decreases |pat|
  {
    hide Takes, GoodToken, TokenName, SegmentEnd;
    match Uncons(pat)
    case End =>
    case Named(_, rest) =>
      BoundNames(rest, caps[1..], compile);
      forall k | 0 <= k < |caps| ensures caps[k].key == Names(pat)[k] {
        if k > 0 { assert caps[k] == caps[1..][k - 1]; }
      }
    case CatchAll(_) =>
    case Literal(_, rest) => BoundNames(rest, caps, compile);
  }

  // ---- Conflict and preference ----

  lemma {:induction false} ConflictSymmetric(p: string, q: string)
    ensures Conflict(p, q) == Conflict(q, p)
    decreases |p|
  {
    match (Uncons(p), Uncons(q))
    case (Named(s, p'), Named(t, q')) => if s == t { ConflictSymmetric(p', q'); }
    case (Literal(c, p'), Literal(d, q')) => if c == d { ConflictSymmetric(p', q'); }
    case _ =>
  }

  lemma {:induction false} SecondSymmetric(p: string, q: string)
    ensures Second(p, q) == Second(q, p)
    decreases |p|
  {
    match (Uncons(p), Uncons(q))
    case (Named(s, p'), Named(t, q')) => if s == t { SecondSymmetric(p', q'); }
    case (Literal(c, p'), Literal(d, q')) => if c == d { SecondSymmetric(p', q'); }
    case _ =>
  }

  lemma {:induction false} PlainNotSecond(p: string, q: string)
    requires Plain(q)
    ensures !Second(p, q)
    decreases |q|
  {
    if Uncons(p).Literal? && Uncons(q).Literal? { PlainNotSecond(Uncons(p).rest, Uncons(q).rest); }
  }

  lemma {:induction false} ConflictReflexive(p: string)
    ensures Conflict(p, p)
    decreases |p|
  {
    match Uncons(p)
    case Named(_, rest) => ConflictReflexive(rest);
    case Literal(_, rest) => ConflictReflexive(rest);
    case _ =>
  }

  // Patterns that may be registered together and describe the same path are
  // always ranked, one way only.
  lemma {:induction false} PreferenceDecides(p: string, q: string, path: string, compile: Compiler)
    requires !Conflict(p, q) && Matches(p, path, compile) && Matches(q, path, compile)
    ensures Prefers(p, q) != Prefers(q, p)
    decreases |p|
  {
    match (Uncons(p), Uncons(q))
    case (Named(s, p'), Named(t, q')) => PreferenceDecides(p', q', path[SegmentEnd(path)..], compile);
    case (Literal(c, p'), Literal(d, q')) => PreferenceDecides(p', q', path[1..], compile);
    case _ =>
  }
}
