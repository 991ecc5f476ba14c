// Optional segments: how one pattern becomes several before registration.
module Optional {
  import opened Wrappers
  import opened Patterns

  const OPENER := "{/:"
  const MAX_OPTIONAL := 8

  // ---- The code's own scan ----

  // Where `needle` first occurs in `s`, or -1.
  function Find(s: string, needle: string): (i: int)
    ensures -1 <= i <= |s|
    ensures i >= 0 ==> needle <= s[i..]
    ensures i < 0 ==> forall k | 0 <= k <= |s| :: !(needle <= s[k..])
    ensures i > 0 ==> forall k | 0 <= k < i :: !(needle <= s[k..])
  {
    if needle <= s then assert s[0..] == s; 0
    else if s == "" then -1
    else
      var i := Find(s[1..], needle);
      assert forall k | 1 <= k <= |s| :: s[k..] == s[1..][k - 1..];
      assert s[0..] == s;
      if i < 0 then -1 else i + 1
  }

  function CountOptional(path: string): nat
    decreases |path|
  {
    var i := Find(path, OPENER);
    if i < 0 then 0
    else
      var closing := IndexOf(path[i..], '}');
      if closing < 0 then 0 else 1 + CountOptional(path[i + closing + 1..])
  }

  // Counting goes on behind the first segment.
  lemma CountStep(path: string, i: nat)
    requires i <= |path|
    ensures var j := Find(path[i..], OPENER);
            if j < 0 then CountOptional(path[i..]) == 0
            else
              var closing := IndexOf(path[i + j..], '}');
              CountOptional(path[i..]) ==
              if closing < 0 then 0 else 1 + CountOptional(path[i + j + closing + 1..])
  {
    hide Find, IndexOf;
    var j := Find(path[i..], OPENER);
    if j >= 0 {
      assert path[i..][j..] == path[i + j..];
      var closing := IndexOf(path[i + j..], '}');
      if closing >= 0 { assert path[i..][j + closing + 1..] == path[i + j + closing + 1..]; }
    }
  }

  // The loop that counts them before anything is expanded.
  method CountOptionalSegments(path: string) returns (count: nat)
    ensures count == CountOptional(path)
  {
    hide CountOptional, Find, IndexOf;
    count := 0;
    var i := 0;
    assert path[0..] == path;
    while i < |path|
      invariant i <= |path| && CountOptional(path) == count + CountOptional(path[i..])
    {
      CountStep(path, i);
      var j := Find(path[i..], OPENER);
      if j < 0 {
        return;
      }
      var closing := IndexOf(path[i + j..], '}');
      if closing < 0 {
        return;
      }
      count := count + 1;
      i := i + j + closing + 1;
    }
    CountStep(path, i);
    assert path[i..] == "";
  }

  datatype Expansion = NotOptional | Malformed | Both(without: string, with: string)

  function ExpandOptional(path: string): (x: Expansion)
    ensures x.Both? ==> |x.without| < |path| && |x.with| < |path|
  {
    var i := Find(path, OPENER);
    if i < 0 then NotOptional
    else
      assert path[i..][0] == '{' && path[i..][1] == '/' && path[i..][2] == ':';
      var closing := IndexOf(path[i..], '}');
      if closing < 0 then Malformed
      else
        assert closing >= 3;
        if OPENER <= path[i + closing + 1..] then Malformed else ExpandAt(path, i, i + closing)
  }

  // Without and with the segment that opens at `i` and closes at `j`.
  function ExpandAt(path: string, i: nat, j: nat): (x: Expansion)
    requires i + 3 <= j < |path|
    ensures x.Both? && |x.without| < |path| && |x.with| < |path|
  {
    var without := path[..i] + path[j + 1..];
    Both(if without == "" then "/" else without,
         path[..i] + "/" + SegmentToken(path[i + 2..j]) + path[j + 1..])
  }

  // ":name" stays, ":name:expr" becomes "{name:expr}".
  function SegmentToken(seg: string): (token: string)
    requires seg != ""
    ensures |token| <= |seg| + 1
  {
    var colon := IndexOf(seg[1..], ':');
    if colon >= 0 then "{" + seg[1..1 + colon] + ":" + seg[2 + colon..] + "}" else seg
  }

  // What registration takes from libraries: compiled expressions, and which
  // byte strings are valid UTF-8.
  datatype Library = Library(compile: Compiler, validText: string -> bool)

  // What the pattern registers, in order.
  function Expand(path: string, lib: Library): Result<seq<string>>
    decreases |path|
  {
    if CountOptional(path) > MAX_OPTIONAL then Panic
    else
      match ExpandOptional(path)
      case NotOptional => if lib.validText(path) then Ok([path]) else Panic
      case Malformed => Panic
      case Both(without, with) =>
        match (Expand(without, lib), Expand(with, lib))
        case (Ok(a), Ok(b)) => Ok(a + b)
        case _ => Panic
  }

  // ---- Patterns written as literal text with optional segments between ----

  // An optional segment and the text after it.
  datatype Part = Part(name: string, expr: Option<string>, after: string)

  // What stands between the braces, without the leading '/'.
  function Body(p: Part): string {
    ":" + p.name + (if p.expr.Some? then ":" + p.expr.value else "")
  }

  // The segment once present.
  function Token(p: Part): string {
    if p.expr.Some? then "{" + p.name + ":" + p.expr.value + "}" else ":" + p.name
  }

  // Everything from the first segment on.
  function Tail(parts: seq<Part>): string
    decreases |parts|
  {
    if parts == [] then "" else ("{/" + Body(parts[0])) + ("}" + (parts[0].after + Tail(parts[1..])))
  }

  // The pattern as it is written.
  function Render(text: string, parts: seq<Part>): string { text + Tail(parts) }

  // The text with the first segment absent or present.
  function Resolved(text: string, p: Part, present: bool): string {
    text + (if present then "/" + Token(p) else "") + p.after
  }

  // The pattern with the chosen segments present and the others absent.
  function Choose(text: string, parts: seq<Part>, present: seq<bool>): string
    requires |present| == |parts|
    decreases |parts|
  {
    if parts == [] then text else Choose(Resolved(text, parts[0], present[0]), parts[1..], present[1..])
  }

  // No '{' of the text opens an optional segment, whatever comes after it.
  predicate FreeText(s: string) {
    forall k | 0 <= k < |s| && s[k] == '{' :: k + 1 < |s| && s[k + 1] != '/'
  }

  predicate GoodPart(p: Part) {
    && '{' !in p.name && '}' !in p.name && ':' !in p.name && '/' !in p.name
    && (p.expr.Some? ==> '{' !in p.expr.value && '}' !in p.expr.value)
    && FreeText(p.after)
  }

  // Well formed, and no segment directly follows another one.
  predicate GoodParts(text: string, parts: seq<Part>) {
    && text != "" && FreeText(text)
    && (forall k | 0 <= k < |parts| :: GoodPart(parts[k]))
    && forall k | 0 <= k < |parts| - 1 :: parts[k].after != ""
  }

  // The two halves Expand works through, one segment at a time.
  function All(text: string, parts: seq<Part>): seq<string>
    decreases |parts|
  {
    if parts == [] then [text]
    else All(Resolved(text, parts[0], false), parts[1..]) + All(Resolved(text, parts[0], true), parts[1..])
  }

  function Pow2(k: nat): nat { if k == 0 then 1 else 2 * Pow2(k - 1) }

  lemma FindNotHere(s: string)
    requires s != "" && (s[0] == '{' ==> |s| >= 2 && s[1] != '/')
    ensures Find(s, OPENER) == (var i := Find(s[1..], OPENER); if i < 0 then -1 else i + 1)
  {
    assert OPENER[0] == '{' && OPENER[1] == '/';
  }

  lemma {:induction false} FindAfterFreeText(text: string, tail: string)
    requires FreeText(text)
    ensures Find(text + tail, OPENER) == (var i := Find(tail, OPENER); if i < 0 then -1 else |text| + i)
    decreases |text|
  {
    if text == "" {
      assert text + tail == tail;
    } else {
      FindNotHere(text + tail);
      hide Find;
      assert (text + tail)[1..] == text[1..] + tail;
      FindAfterFreeText(text[1..], tail);
    }
  }

  lemma {:induction false} IndexAfter(text: string, c: char, tail: string)
    requires c !in text
    ensures IndexOf(text + [c] + tail, c) == |text|
    decreases |text|
  {
    if text != "" {
      assert (text + [c] + tail)[1..] == text[1..] + [c] + tail;
      IndexAfter(text[1..], c, tail);
    }
  }

  lemma {:induction false} NoIndex(text: string, c: char)
    requires c !in text
    ensures IndexOf(text, c) == -1
    decreases |text|
  {
    if text != "" {
      NoIndex(text[1..], c);
    }
  }

  lemma BodyToken(p: Part)
    requires GoodPart(p)
    ensures SegmentToken(Body(p)) == Token(p)
  {
    var seg := Body(p);
    if p.expr.Some? {
      assert seg[1..] == p.name + ":" + p.expr.value;
      IndexAfter(p.name, ':', p.expr.value);
      assert seg[1..1 + |p.name|] == p.name;
      assert seg[2 + |p.name|..] == p.expr.value;
    } else {
      assert seg[1..] == p.name;
      NoIndex(p.name, ':');
    }
  }

  // ---- One step of the expansion ----

  // What follows the text, around its first closing brace.
  lemma TailShape(open: string, rest: string)
    requires '}' !in open
    ensures IndexOf(open + ("}" + rest), '}') == |open|
    ensures (open + ("}" + rest))[|open| + 1..] == rest
  {
    hide IndexOf;
    IndexAfter(open, '}', rest);
    assert open + ("}" + rest) == open + ['}'] + rest;
  }

  lemma OpensTail(body: string, after: string)
    requires body != "" && body[0] == ':'
    ensures OPENER <= ("{/" + body) + after && (("{/" + body) + after)[2..2 + |body|] == body
  {
    var t := ("{/" + body) + after;
    assert t[..3] == OPENER;
  }

  lemma NotAdjacent(after: string, tail: string)
    requires FreeText(after) && (after == "" ==> tail == "")
    ensures !(OPENER <= after + tail)
  {
    assert OPENER[0] == '{' && OPENER[1] == '/';
    if after != "" && after[0] == '{' {
      assert (after + tail)[1] == after[1];
    }
  }

  // The scans, once the opener and its closing brace are found.
  lemma ExpandFound(path: string, i: nat, closing: nat)
    requires i <= |path| && Find(path, OPENER) == i && IndexOf(path[i..], '}') == closing
    requires 3 <= closing && i + closing < |path| && !(OPENER <= path[i + closing + 1..])
    ensures ExpandOptional(path) == ExpandAt(path, i, i + closing)
  {
    hide Find, IndexOf, ExpandAt;
  }

  lemma CountAt(path: string, i: nat, closing: nat)
    requires i <= |path| && Find(path, OPENER) == i && IndexOf(path[i..], '}') == closing
    requires i + closing < |path|
    ensures CountOptional(path) == 1 + CountOptional(path[i + closing + 1..])
  {
    hide Find, IndexOf;
  }

  lemma OpenerFirst(tail: string)
    requires OPENER <= tail
    ensures Find(tail, OPENER) == 0
  {
    assert tail[0..] == tail;
  }

  // Where the scans find the parts of a pattern around its first segment.
  lemma AroundPlaces(text: string, body: string, rest: string)
    requires FreeText(text) && body != "" && body[0] == ':' && '}' !in body
    ensures var path := text + (("{/" + body) + ("}" + rest));
            Find(path, OPENER) == |text| && IndexOf(path[|text|..], '}') == 2 + |body|
  {
    hide *;
    var tail := ("{/" + body) + ("}" + rest);
    OpensTail(body, "}" + rest);
    TailShape("{/" + body, rest);
    OpenerFirst(tail);
    FindAfterFreeText(text, tail);
    Cut(text, tail);
  }

  lemma AroundSlices(text: string, open: string, rest: string)
    requires |open| >= 2
    ensures var path := text + (open + ("}" + rest));
            var i, closing := |text|, |open|;
            path[..i] == text && path[i + closing + 1..] == rest && path[i + 2..i + closing] == open[2..]
  {
  }

  lemma Around(text: string, body: string, rest: string)
    requires FreeText(text) && body != "" && body[0] == ':' && '}' !in body
    ensures var path := text + (("{/" + body) + ("}" + rest));
            var i, closing := |text|, 2 + |body|;
            && Find(path, OPENER) == i && IndexOf(path[i..], '}') == closing
            && path[..i] == text && path[i + closing + 1..] == rest && path[i + 2..i + closing] == body
  {
    hide *;
    AroundPlaces(text, body, rest);
    AroundSlices(text, "{/" + body, rest);
    assert ("{/" + body)[2..] == body;
  }

  lemma ExpandAround(text: string, body: string, rest: string)
    requires FreeText(text) && text != "" && body != "" && body[0] == ':' && '}' !in body && !(OPENER <= rest)
    ensures ExpandOptional(text + (("{/" + body) + ("}" + rest)))
         == Both(text + rest, text + "/" + SegmentToken(body) + rest)
  {
    var path := text + (("{/" + body) + ("}" + rest));
    hide ExpandOptional, Find, IndexOf, SegmentToken, FreeText;
    Around(text, body, rest);
    ExpandFound(path, |text|, 2 + |body|);
  }

  lemma GoodBody(p: Part)
    requires GoodPart(p)
    ensures Body(p) != "" && Body(p)[0] == ':' && '}' !in Body(p)
  {
  }

  lemma ExpandStep(text: string, parts: seq<Part>)
    requires GoodParts(text, parts) && parts != []
    ensures ExpandOptional(Render(text, parts))
         == Both(Render(Resolved(text, parts[0], false), parts[1..]), Render(Resolved(text, parts[0], true), parts[1..]))
  {
    var p := parts[0];
    var tail := Tail(parts[1..]);
    var rest := p.after + tail;
    GoodBody(p);
    assert p.after == "" ==> |parts| == 1;
    NotAdjacent(p.after, tail);
    ExpandAround(text, Body(p), rest);
    BodyToken(p);
    Concat(text, p.after, tail);
    Concat(text + "/" + Token(p), p.after, tail);
    ChosenText(text, p);
  }

  lemma ChosenText(text: string, p: Part)
    ensures Resolved(text, p, false) == text + p.after
    ensures Resolved(text, p, true) == text + "/" + Token(p) + p.after
  {
    assert text + "" == text;
    Concat(text, "/", Token(p));
  }

  lemma GoodChosen(text: string, parts: seq<Part>, present: bool)
    requires GoodParts(text, parts) && parts != []
    ensures GoodParts(Resolved(text, parts[0], present), parts[1..])
  {
    var p := parts[0];
    FreeToken(p);
    FreeConcat(text, "/" + Token(p));
    FreeConcat(text + ("/" + Token(p)), p.after);
    FreeConcat(text, p.after);
    assert Resolved(text, p, present) == if present then text + ("/" + Token(p)) + p.after else text + p.after;
  }

  lemma FreeConcat(s: string, t: string)
    requires FreeText(s) && FreeText(t)
    ensures FreeText(s + t)
  {
  }

  lemma FreeToken(p: Part)
    requires GoodPart(p)
    ensures FreeText("/" + Token(p))
  {
    var s := "/" + Token(p);
    if p.expr.Some? {
      assert s == "/{" + (p.name + ":" + p.expr.value + "}");
      var body := p.name + ":" + p.expr.value + "}";
      assert '{' !in body && body[0] != '/';
      assert forall k | 2 <= k < |s| :: s[k] == body[k - 2];
    }
  }

  lemma NoStep(text: string)
    requires FreeText(text)
    ensures Find(text, OPENER) < 0 && CountOptional(text) == 0 && ExpandOptional(text) == NotOptional
  {
    FindAfterFreeText(text, "");
    assert text + "" == text;
  }

  lemma CountAround(text: string, body: string, rest: string)
    requires FreeText(text) && body != "" && body[0] == ':' && '}' !in body
    ensures CountOptional(text + (("{/" + body) + ("}" + rest))) == 1 + CountOptional(rest)
  {
    hide *;
    Around(text, body, rest);
    CountAt(text + (("{/" + body) + ("}" + rest)), |text|, 2 + |body|);
  }

  lemma {:induction false} CountsParts(text: string, parts: seq<Part>)
    requires FreeText(text) && forall k | 0 <= k < |parts| :: GoodPart(parts[k])
    ensures CountOptional(Render(text, parts)) == |parts|
    decreases |parts|
  {
    if parts == [] {
      assert text + "" == text;
      NoStep(text);
    } else {
      GoodBody(parts[0]);
      CountAround(text, Body(parts[0]), parts[0].after + Tail(parts[1..]));
      CountsParts(parts[0].after, parts[1..]);
    }
  }

  // ---- The expansion as a whole ----

  // Expanding yields the choices one after the other, for up to eight segments.
  lemma {:induction false} ExpandsAll(text: string, parts: seq<Part>, lib: Library)
    requires GoodParts(text, parts) && |parts| <= MAX_OPTIONAL
    requires forall s | s in All(text, parts) :: lib.validText(s)
    ensures Expand(Render(text, parts), lib) == Ok(All(text, parts))
    decreases |parts|
  {
    CountsParts(text, parts);
    if parts == [] {
      assert text + "" == text;
      NoStep(text);
    } else {
      var no, yes := Resolved(text, parts[0], false), Resolved(text, parts[0], true);
      ExpandStep(text, parts);
      GoodChosen(text, parts, false);
      GoodChosen(text, parts, true);
      assert All(text, parts) == All(no, parts[1..]) + All(yes, parts[1..]);
      hide CountOptional, ExpandOptional, Resolved, All, Render, GoodParts;
      ExpandsAll(no, parts[1..], lib);
      ExpandsAll(yes, parts[1..], lib);
      ExpandBoth(Render(text, parts), Render(no, parts[1..]), Render(yes, parts[1..]), lib);
    }
  }

  lemma ExpandBoth(path: string, without: string, with: string, lib: Library)
    requires CountOptional(path) <= MAX_OPTIONAL && ExpandOptional(path) == Both(without, with)
    requires |without| < |path| && |with| < |path| && Expand(without, lib).Ok? && Expand(with, lib).Ok?
    ensures Expand(path, lib) == Ok(Expand(without, lib).value + Expand(with, lib).value)
  {
    hide CountOptional, ExpandOptional;
  }

  lemma {:induction false} AllCount(text: string, parts: seq<Part>)
    ensures |All(text, parts)| == Pow2(|parts|)
    decreases |parts|
  {
    if parts != [] {
      AllCount(Resolved(text, parts[0], false), parts[1..]);
      AllCount(Resolved(text, parts[0], true), parts[1..]);
    }
  }

  lemma {:induction false} AllAreChoices(text: string, parts: seq<Part>, s: string)
    ensures s in All(text, parts) <==>
            exists present: seq<bool> :: |present| == |parts| && s == Choose(text, parts, present)
    decreases |parts|
  {
    if parts == [] {
      assert Choose(text, parts, []) == text;
    } else {
      var no, yes := Resolved(text, parts[0], false), Resolved(text, parts[0], true);
      AllAreChoices(no, parts[1..], s);
      AllAreChoices(yes, parts[1..], s);
      if s in All(no, parts[1..]) {
        var m: seq<bool> :| |m| == |parts| - 1 && s == Choose(no, parts[1..], m);
        assert ([false] + m)[1..] == m;
        assert s == Choose(text, parts, [false] + m);
      } else if s in All(yes, parts[1..]) {
        var m: seq<bool> :| |m| == |parts| - 1 && s == Choose(yes, parts[1..], m);
        assert ([true] + m)[1..] == m;
        assert s == Choose(text, parts, [true] + m);
      }
      forall present: seq<bool> | |present| == |parts| && s == Choose(text, parts, present)
        ensures s in All(text, parts)
      {
        assert s == Choose(Resolved(text, parts[0], present[0]), parts[1..], present[1..]);
      }
    }
  }

  // A pattern with k optional segments registers its 2^k choices, and a path
  // matches one of them exactly when it matches the pattern with each segment
  // independently present or absent.
  lemma OptionalMeansChoice(text: string, parts: seq<Part>, lib: Library, path: string)
    requires GoodParts(text, parts) && |parts| <= MAX_OPTIONAL
    requires forall present: seq<bool> | |present| == |parts| :: lib.validText(Choose(text, parts, present))
    ensures Expand(Render(text, parts), lib).Ok?
    ensures var ps := Expand(Render(text, parts), lib).value;
            && |ps| == Pow2(|parts|)
            && (forall s :: s in ps <==>
                  exists present: seq<bool> :: |present| == |parts| && s == Choose(text, parts, present))
            && ((exists s :: s in ps && Matches(s, path, lib.compile)) <==>
                  exists present: seq<bool> :: |present| == |parts| && Matches(Choose(text, parts, present), path, lib.compile))
  {
    forall s ensures s in All(text, parts) <==>
                     exists present: seq<bool> :: |present| == |parts| && s == Choose(text, parts, present)
    {
      AllAreChoices(text, parts, s);
    }
    ExpandsAll(text, parts, lib);
    AllCount(text, parts);
    forall present: seq<bool> | |present| == |parts| ensures Choose(text, parts, present) in All(text, parts) {
      AllAreChoices(text, parts, Choose(text, parts, present));
    }
  }

  // More than eight are refused before anything is registered.
  lemma TooManySegments(text: string, parts: seq<Part>, lib: Library)
    requires GoodParts(text, parts) && |parts| > MAX_OPTIONAL
    ensures Expand(Render(text, parts), lib).Panic?
  {
    CountsParts(text, parts);
  }
}
