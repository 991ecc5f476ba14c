// Patterns as the documentation writes them, piece by piece: literal bytes,
// `:name`, `{name:expr}` and a final `/*name`. What a pattern names, accepts
// and spells, said without scanning for tokens.
module PatternPieces {
  import opened Patterns

  datatype Piece =
    | Byte(c: char)
    | Colon(name: string)
    | Brace(name: string, expr: string)
    | Star(name: string)

  function Written(piece: Piece): (s: string)
    ensures s != ""
  {
    match piece
    case Byte(c) => [c]
    case Colon(name) => ":" + name
    case Brace(name, expr) => "{" + name + ":" + expr + "}"
    case Star(name) => "/*" + name
  }

  function Print(pieces: seq<Piece>): string {
    if pieces == [] then "" else Written(pieces[0]) + Print(pieces[1..])
  }

  predicate OnePiece(piece: Piece) {
    match piece
    case Byte(c) => !IsMark(c)
    case Colon(name) => CleanName(name)
    case Brace(name, expr) => ':' !in name && '/' !in name && '/' !in expr
    case Star(name) => CleanName(name)
  }

  // A parameter reaches to the end of its segment, a catch-all to the end of
  // the pattern.
  predicate Follows(piece: Piece, more: seq<Piece>) {
    match piece
    case Byte(_) => true
    case Star(_) => more == []
    case _ => more == [] || more[0] == Byte('/') || more[0].Star?
  }

  predicate Proper(pieces: seq<Piece>) {
    pieces != [] ==> OnePiece(pieces[0]) && Follows(pieces[0], pieces[1..]) && Proper(pieces[1..])
  }

  // The names of the parameters, in order.
  function Labels(pieces: seq<Piece>): seq<string> {
    if pieces == [] then []
    else (if pieces[0].Byte? then [] else [pieces[0].name]) + Labels(pieces[1..])
  }

  // The path with each value in the place of its parameter.
  function Filled(pieces: seq<Piece>, caps: seq<Param>): string {
    if pieces == [] then ""
    else if pieces[0].Byte? then [pieces[0].c] + Filled(pieces[1..], caps)
    else if caps == [] then ""
    else caps[0].value + Filled(pieces[1..], caps[1..])
  }

  // What a parameter may hold.
  predicate Suits(piece: Piece, cap: Param, compile: Compiler)
    requires !piece.Byte?
  {
    && cap.key == piece.name && cap.value != ""
    && if piece.Star? then cap.value[0] == '/'
       else
         && '/' !in cap.value
         && (piece.Brace? ==> compile(piece.expr).Some? && compile(piece.expr).value(cap.value))
  }

  // The captures are those of the parameters, in order.
  predicate Supplied(pieces: seq<Piece>, caps: seq<Param>, compile: Compiler) {
    if pieces == [] then caps == []
    else if pieces[0].Byte? then Supplied(pieces[1..], caps, compile)
    else caps != [] && Suits(pieces[0], caps[0], compile) && Supplied(pieces[1..], caps[1..], compile)
  }

  // ---- Reading a pattern ----

  function TokenPiece(token: string): Piece
    requires IsToken(token)
  {
    if token[0] == '{' && NameEnd(token) > 0 then Brace(TokenName(token), TokenExpr(token)) else Colon(TokenName(token))
  }

  function Pieces(p: string): seq<Piece>
    decreases |p|
  {
    match Uncons(p)
    case End => []
    case Named(token, rest) => [TokenPiece(token)] + Pieces(rest)
    case CatchAll(token) => [Star(token[2..])]
    case Literal(c, rest) => [Byte(c)] + Pieces(rest)
  }

  // A token the registration accepts is its name and expression between the
  // marks.
  lemma TokenWritten(token: string, compile: Compiler)
    requires GoodToken(token, compile) && '/' !in token
    ensures Written(TokenPiece(token)) == token && OnePiece(TokenPiece(token))
    ensures token[0] == '{' ==>
              token == "{" + TokenName(token) + ":" + TokenExpr(token) + "}" && ':' !in TokenName(token)
    ensures token[0] == ':' ==> token == ":" + TokenName(token)
  {
    if token[0] == '{' {
      var n, e := NameEnd(token), |token| - 1;
      var k := IndexOf(token[1..], ':');
      assert n == k + 1 && token[n] == token[1..][k] == ':';
      assert forall i | 0 <= i < k :: token[1..][i] == token[i + 1];
      assert token == "{" + token[1..n] + ":" + token[n + 1..e] + "}";
      assert forall i | 0 <= i < |token[1..n]| :: token[1..n][i] == token[1..][i];
    }
  }

  lemma PiecesBegin(p: string)
    ensures var ps := Pieces(p);
            && (ps == [] <==> p == "")
            && (p != "" && p[0] == '/' ==> ps[0] == Byte('/') || (ps[0].Star? && |ps| == 1))
  {
  }

  // Every valid pattern is written in pieces, and its names are theirs.
  lemma {:induction false} ValidInPieces(p: string, compile: Compiler)
    requires Valid(p, compile)
    ensures Print(Pieces(p)) == p && Proper(Pieces(p)) && Labels(Pieces(p)) == Names(p)
    decreases |p|
  {
    match Uncons(p)
    case End =>
    case Named(token, rest) =>
      ValidInPieces(rest, compile);
      NamedBegins(p);
      TokenWritten(token, compile);
      PiecesBegin(rest);
      assert Pieces(p)[1..] == Pieces(rest);
    case CatchAll(token) =>
      assert token == "/*" + token[2..];
      assert Pieces(p)[1..] == [];
      assert Print(Pieces(p)) == Written(Star(token[2..])) + "";
      assert Labels(Pieces(p)) == [token[2..]] + [];
    case Literal(c, rest) =>
      ValidInPieces(rest, compile);
      assert Pieces(p)[1..] == Pieces(rest);
      assert [] + Labels(Pieces(rest)) == Labels(Pieces(p));
  }

  lemma NamedBegins(p: string)
    requires Uncons(p).Named?
    ensures '/' !in Uncons(p).token && (Uncons(p).rest == "" || Uncons(p).rest[0] == '/')
  {
  }

  // A binding of the pattern's wildcards is one of the pieces' parameters, and
  // spells the same path.
  lemma {:induction false} BindsPieces(p: string, caps: seq<Param>, compile: Compiler)
    requires Valid(p, compile)
    ensures Binds(p, caps, compile) <==> Supplied(Pieces(p), caps, compile)
    ensures Substitute(p, caps) == Filled(Pieces(p), caps)
    decreases |p|
  {
    match Uncons(p)
    case End =>
    case Named(token, rest) =>
      NamedBegins(p);
      TokenWritten(token, compile);
      assert Pieces(p)[1..] == Pieces(rest);
      if caps != [] {
        BindsPieces(rest, caps[1..], compile);
        TokenSuits(token, caps[0], compile);
      }
    case CatchAll(token) =>
      assert Pieces(p)[1..] == [];
      if caps != [] { assert caps[0].value + "" == caps[0].value; }
    case Literal(c, rest) =>
      BindsPieces(rest, caps, compile);
      assert Pieces(p)[1..] == Pieces(rest);
  }

  lemma TokenSuits(token: string, cap: Param, compile: Compiler)
    requires GoodToken(token, compile)
    ensures Suits(TokenPiece(token), cap, compile)
        <==> cap.key == TokenName(token) && Takes(token, cap.value, compile) && '/' !in cap.value
  {
  }

  // The captures are what the parameters the pattern is written with hold, in
  // order and under their names, and in their places they give the path.
  ghost predicate Explains(p: string, caps: seq<Param>, path: string, compile: Compiler) {
    var ps := Pieces(p);
    && Proper(ps) && Print(ps) == p
    && Supplied(ps, caps, compile) && Filled(ps, caps) == path
    && |caps| == |Labels(ps)| && forall k | 0 <= k < |caps| :: caps[k].key == Labels(ps)[k]
  }

  lemma BindingExplains(p: string, caps: seq<Param>, compile: Compiler)
    requires Valid(p, compile) && Binds(p, caps, compile)
    ensures Explains(p, caps, Substitute(p, caps), compile)
  {
    hide Binds, Substitute, Pieces, Labels;
    BoundNames(p, caps, compile);
    ValidInPieces(p, compile);
    BindsPieces(p, caps, compile);
  }

  // ---- No other reading ----

  // The pieces a text was written in are the ones read from it.
  lemma {:induction false} ReadsBack(pieces: seq<Piece>)
    requires Proper(pieces)
    ensures Pieces(Print(pieces)) == pieces
    decreases |pieces|
  {
    if pieces != [] {
      var rest := Print(pieces[1..]);
      ReadsBack(pieces[1..]);
      assert pieces == [pieces[0]] + pieces[1..];
      hide IsToken, Uncons, TokenPiece;
      match pieces[0]
      case Byte(c) => ByteRead(c, rest);
      case Star(name) => assert "/*" + name + "" == "/*" + name; StarRead(name);
      case _ =>
        RestBegins(pieces[1..]);
        TokenRead(pieces[0], rest);
    }
  }

  lemma RestBegins(pieces: seq<Piece>)
    requires pieces == [] || pieces[0] == Byte('/') || pieces[0].Star?
    ensures Print(pieces) == "" || Print(pieces)[0] == '/'
  {
  }

  lemma ByteRead(c: char, rest: string)
    requires !IsMark(c) && (rest != "" ==> c != '/' || rest[0] != '*')
    ensures Uncons([c] + rest) == Literal(c, rest)
  {
    var p := [c] + rest;
    assert p[1..] == rest;
    var e := SegmentEnd(p);
    if e > 0 { assert p[..e][0] == c; }
  }

  lemma StarRead(name: string)
    ensures Uncons("/*" + name) == CatchAll("/*" + name) && ("/*" + name)[2..] == name
  {
  }

  lemma TokenRead(piece: Piece, rest: string)
    requires (piece.Colon? || piece.Brace?) && OnePiece(piece) && (rest == "" || rest[0] == '/')
    ensures var p := Written(piece) + rest;
            Uncons(p) == Named(Written(piece), rest) && TokenPiece(Written(piece)) == piece
  {
    var token := Written(piece);
    var p := token + rest;
    assert '/' !in token;
    SegmentEndIs(p, |token|);
    assert p[..|token|] == token && p[|token|..] == rest;
    if piece.Brace? { BraceRead(piece.name, piece.expr); } else { assert token[1..] == piece.name; }
  }

  lemma BraceRead(name: string, expr: string)
    requires ':' !in name
    ensures TokenPiece("{" + name + ":" + expr + "}") == Brace(name, expr)
  {
    var token := "{" + name + ":" + expr + "}";
    var k := IndexOf(token[1..], ':');
    assert token[1..] == name + (":" + expr + "}");
    assert forall i | 0 <= i < |name| :: token[1..][i] == name[i];
    assert token[1..][|name|] == ':';
    assert k == |name|;
    assert token[1..1 + |name|] == name && token[2 + |name|..|token| - 1] == expr;
  }
}
