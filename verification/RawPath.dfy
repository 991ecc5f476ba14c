// A request's decoded path and the raw path it was decoded from stay a pair:
// where a mounted sub-router or the trailing-slash stripper shortens one, the
// other is shortened to match, or given up.
module RawPath {
  import opened Wrappers
  import opened Patterns

  // ---- Percent-encoding, section 2.1 of RFC 3986 ----

  predicate IsHex(c: char) { '0' <= c <= '9' || 'a' <= c <= 'f' || 'A' <= c <= 'F' }

  function HexValue(c: char): (v: nat)
    requires IsHex(c)
    ensures v < 16
  {
    if c <= '9' then (c - '0') as nat else if c <= 'F' then (c - 'A') as nat + 10 else (c - 'a') as nat + 10
  }

  // How many bytes of `s` stand for its first decoded one, or 0 for none.
  function TokenLength(s: string): (k: nat)
    ensures k <= |s| && (s != "" && s[0] != '%' ==> k == 1)
  {
    if s == "" then 0
    else if s[0] != '%' then 1
    else if |s| >= 3 && IsHex(s[1]) && IsHex(s[2]) then 3
    else 0
  }

  function TokenByte(s: string): (c: char)
    requires TokenLength(s) > 0
  {
    if s[0] != '%' then s[0] else (16 * HexValue(s[1]) + HexValue(s[2])) as char
  }

  // What url.PathUnescape returns, or None for its error.
  function Decode(s: string): Option<string>
    decreases |s|
  {
    if s == "" then Some("")
    else
      var k := TokenLength(s);
      if k == 0 then None
      else
        var rest := Decode(s[k..]);
        if rest.None? then None else Some([TokenByte(s)] + rest.value)
  }

  function HexDigit(v: nat, upper: bool): char
    requires v < 16
  {
    if upper then "0123456789ABCDEF"[v] else "0123456789abcdef"[v]
  }

  // Every byte as an escape.
  function Escape(s: string, upper: bool): string
    requires forall i | 0 <= i < |s| :: s[i] as int < 256
  {
    if s == "" then ""
    else ['%', HexDigit(s[0] as int / 16, upper), HexDigit(s[0] as int % 16, upper)] + Escape(s[1..], upper)
  }

  // Escapes decode to the bytes they stand for, in either case.
  lemma {:induction false} EscapesDecode(s: string, upper: bool)
    requires forall i | 0 <= i < |s| :: s[i] as int < 256
    ensures Decode(Escape(s, upper)) == Some(s)
  {
    if s != "" {
      EscapesDecode(s[1..], upper);
      var e := Escape(s, upper);
      HexRead(s[0] as int / 16, upper);
      HexRead(s[0] as int % 16, upper);
      assert e[3..] == Escape(s[1..], upper);
      assert TokenLength(e) == 3 && TokenByte(e) == s[0];
      assert s == [s[0]] + s[1..];
    }
  }

  lemma HexRead(v: nat, upper: bool)
    requires v < 16
    ensures IsHex(HexDigit(v, upper)) && HexValue(HexDigit(v, upper)) == v
  {
  }

  // No escape of what comes before reaches into `s`.
  predicate StartsToken(s: string) { s == "" || !IsHex(s[0]) }

  function Joined(a: Option<string>, b: Option<string>): Option<string> {
    if a.Some? && b.Some? then Some(a.value + b.value) else None
  }

  lemma {:induction false} DecodeConcat(a: string, b: string)
    requires StartsToken(b)
    ensures Decode(a + b) == Joined(Decode(a), Decode(b))
    decreases |a|
  {
    if a == "" {
      assert a + b == b;
      assert Decode(b).Some? ==> "" + Decode(b).value == Decode(b).value;
    } else {
      TokenConcat(a, b);
      var k := TokenLength(a);
      if k > 0 {
        assert (a + b)[k..] == a[k..] + b;
        DecodeConcat(a[k..], b);
        if Decode(a[k..]).Some? && Decode(b).Some? {
          Concat([TokenByte(a)], Decode(a[k..]).value, Decode(b).value);
        }
      }
    }
  }

  lemma TokenConcat(a: string, b: string)
    requires a != "" && StartsToken(b)
    ensures TokenLength(a + b) == TokenLength(a)
    ensures TokenLength(a) > 0 ==> TokenByte(a + b) == TokenByte(a)
  {
    assert forall i | 0 <= i < |a| :: (a + b)[i] == a[i];
    assert |a| < |a + b| ==> (a + b)[|a|] == b[0];
  }

  // Decoding shortens, and only by escapes.
  lemma {:induction false} DecodedLength(s: string)
    requires Decode(s).Some?
    ensures var d := Decode(s).value;
            |d| <= |s| && (|d| == |s| <==> '%' !in s) && ('%' !in s ==> d == s) && (s != "" ==> d != "")
    decreases |s|
  {
    if s != "" {
      var k := TokenLength(s);
      DecodedLength(s[k..]);
      assert s == s[..k] + s[k..];
      if '%' !in s[k..] && k == 1 { assert s == [s[0]] + s[1..]; }
    }
  }

  // The last decoded byte comes from the last byte or the last three.
  lemma {:induction false} LastToken(s: string) returns (k: nat)
    requires Decode(s).Some? && Decode(s).value != ""
    ensures var d := Decode(s).value;
            && (k == 1 || k == 3) && k <= |s| && TokenLength(s[|s| - k..]) == k && TokenByte(s[|s| - k..]) == d[|d| - 1]
            && Decode(s[..|s| - k]) == Some(d[..|d| - 1])
    decreases |s|
  {
    var j := TokenLength(s);
    var d, rest := Decode(s).value, Decode(s[j..]).value;
    if rest == "" {
      if s[j..] != "" { DecodedLength(s[j..]); }
      k := j;
      assert s[|s| - k..] == s && s[..|s| - k] == "" && d[..|d| - 1] == "";
    } else {
      k := LastToken(s[j..]);
      LastOf(s, j, k);
    }
  }

  // A token is the same in any text that begins with it.
  lemma TokenWithin(s: string, m: nat)
    requires s != "" && 0 < TokenLength(s) <= m <= |s|
    ensures TokenLength(s[..m]) == TokenLength(s) && TokenByte(s[..m]) == TokenByte(s)
  {
    assert forall i | 0 <= i < m :: s[..m][i] == s[i];
  }

  lemma LastOf(s: string, j: nat, k: nat)
    requires Decode(s).Some? && s != "" && j == TokenLength(s) && 0 < k && j + k <= |s|
    requires var rest := Decode(s[j..]).value;
             rest != "" && Decode(s[j..][..|s| - j - k]) == Some(rest[..|rest| - 1])
    ensures var d := Decode(s).value;
            s[j..][|s| - j - k..] == s[|s| - k..] && d[|d| - 1] == Decode(s[j..]).value[|d| - 2]
            && Decode(s[..|s| - k]) == Some(d[..|d| - 1])
  {
    FirstDecoded(s);
    hide *;
    var rest, start := Decode(s[j..]).value, s[..|s| - k];
    TokenWithin(s, |s| - k);
    SliceSlices(s, j, k);
    DecodedFrom(start, rest[..|rest| - 1]);
    LastDropped(TokenByte(s), rest);
  }

  lemma LastDropped(c: char, rest: string)
    requires rest != ""
    ensures ([c] + rest)[..|rest|] == [c] + rest[..|rest| - 1] && ([c] + rest)[|rest|] == rest[|rest| - 1]
  {
  }

  lemma FirstDecoded(s: string)
    requires Decode(s).Some? && s != ""
    ensures var k := TokenLength(s);
            k > 0 && Decode(s[k..]).Some? && Decode(s).value == [TokenByte(s)] + Decode(s[k..]).value
  {
  }

  lemma DecodedFrom(s: string, rest: string)
    requires s != "" && TokenLength(s) > 0 && Decode(s[TokenLength(s)..]) == Some(rest)
    ensures Decode(s) == Some([TokenByte(s)] + rest)
  {
  }

  lemma SliceSlices(s: string, j: nat, k: nat)
    requires j + k <= |s|
    ensures s[..|s| - k][j..] == s[j..][..|s| - j - k] && s[j..][|s| - j - k..] == s[|s| - k..]
  {
  }

  // ---- Paths by segments ----

  predicate Absolute(s: string) { s == "" || s[0] == '/' }

  // What comes after the first byte, up to the next slash ...
  function Segment(s: string): string
    requires s != ""
  {
    s[1..SegmentEnd(s[1..]) + 1]
  }

  // ... and from there on.
  function Rest(s: string): (r: string)
    requires s != ""
    ensures |r| < |s| && Absolute(r)
  {
    var e := SegmentEnd(s[1..]) + 1;
    assert e < |s| ==> s[e] == s[1..][e - 1];
    s[e..]
  }

  function Cons(segment: string, rest: string): string { ['/'] + segment + rest }

  lemma Parts(s: string)
    requires s != "" && s[0] == '/'
    ensures s == Cons(Segment(s), Rest(s)) && '/' !in Segment(s)
  {
    var e := SegmentEnd(s[1..]) + 1;
    assert forall i | 1 <= i < e :: s[i] == s[1..][i - 1];
    assert s == s[..1] + s[1..e] + s[e..];
  }

  lemma ConsParts(segment: string, rest: string)
    requires '/' !in segment && Absolute(rest)
    ensures Segment(Cons(segment, rest)) == segment && Rest(Cons(segment, rest)) == rest
  {
    var s := Cons(segment, rest);
    assert s[1..] == segment + rest;
    assert SegmentEnd(segment + rest) == |segment| by { SegmentEndOf(segment, rest); }
    assert s[|segment| + 1..] == rest;
  }

  lemma SegmentEndOf(segment: string, rest: string)
    requires '/' !in segment && Absolute(rest)
    ensures SegmentEnd(segment + rest) == |segment|
  {
    var t := segment + rest;
    var e := SegmentEnd(t);
    assert forall i | 0 <= i < |segment| :: t[i] == segment[i];
    assert rest != "" ==> t[|segment|] == rest[0];
  }

  // ---- Under a mount ----

  // What is left of `raw` when its first segments have been matched, decoded,
  // with those of `matched`.
  function Remainder(matched: string, raw: string): Option<string>
    decreases |matched|
  {
    if matched == "" then Some(raw)
    else if raw == "" || raw[0] != '/' then None
    else if Decode(Segment(raw)) != Some(Segment(matched)) then None
    else Remainder(Rest(matched), Rest(raw))
  }

  // `raw` spells `path` segment by segment.
  ghost predicate Spells(raw: string, path: string)
    decreases |path|
  {
    if path == "" then raw == ""
    else
      && raw != "" && raw[0] == '/' && path[0] == '/'
      && Decode(Segment(raw)) == Some(Segment(path)) && Spells(Rest(raw), Rest(path))
  }

  // The remainder begins where spelled-out segments end.
  lemma {:induction false} RemainderSpells(matched: string, raw: string) returns (used: string)
    requires Absolute(matched) && Remainder(matched, raw).Some?
    ensures raw == used + Remainder(matched, raw).value && Spells(used, matched)
    ensures matched != "" ==> Absolute(Remainder(matched, raw).value)
    decreases |matched|
  {
    if matched == "" {
      used := "";
    } else {
      var more := RemainderSpells(Rest(matched), Rest(raw));
      Parts(raw);
      hide Segment, Rest, Decode;
      used := Cons(Segment(raw), more);
      Concat(['/'] + Segment(raw), more, Remainder(matched, raw).value);
      ConsParts(Segment(raw), more);
    }
  }

  // Wherever spelled-out segments end at a slash or the end of the path, that
  // is where the remainder begins.
  lemma {:induction false} SpelledRemains(matched: string, spelled: string, rem: string)
    requires Spells(spelled, matched) && Absolute(rem)
    ensures Remainder(matched, spelled + rem) == Some(rem)
    decreases |matched|
  {
    if matched == "" {
      assert spelled + rem == rem;
    } else {
      var more := Rest(spelled) + rem;
      SpelledRemains(Rest(matched), Rest(spelled), rem);
      Parts(spelled);
      hide Segment, Rest, Decode;
      Concat(['/'] + Segment(spelled), Rest(spelled), rem);
      ConsParts(Segment(spelled), more);
    }
  }

  // What is spelled out segment by segment decodes as a whole.
  lemma {:induction false} SpelledDecodes(raw: string, path: string)
    requires Spells(raw, path)
    ensures Decode(raw) == Some(path)
    decreases |path|
  {
    if path != "" {
      SpelledDecodes(Rest(raw), Rest(path));
      Parts(raw);
      Parts(path);
      DecodeCons(Segment(raw), Rest(raw));
    }
  }

  lemma DecodeCons(segment: string, rest: string)
    requires Absolute(rest) && Decode(segment).Some? && Decode(rest).Some?
    ensures Decode(Cons(segment, rest)) == Some(Cons(Decode(segment).value, Decode(rest).value))
  {
    DecodeConcat(segment, rest);
    var s := Cons(segment, rest);
    Concat(['/'], segment, rest);
    assert s[1..] == segment + rest && TokenLength(s) == 1 && TokenByte(s) == '/';
    Concat(['/'], Decode(segment).value, Decode(rest).value);
  }

  // The walk over both paths, one segment of each at a time.
  method RawPathRemainder(matchedPrefix: string, rawPath: string) returns (remainder: Option<string>)
    requires Absolute(matchedPrefix)
    ensures remainder == Remainder(matchedPrefix, rawPath)
  {
    hide Decode;
    var mp, rp := matchedPrefix, rawPath;
    while |mp| > 0
      invariant Absolute(mp) && Remainder(matchedPrefix, rawPath) == Remainder(mp, rp)
    {
      if |rp| == 0 || rp[0] != '/' {
        return None;
      }
      var mSeg, rSeg;
      mSeg, mp := CutSegment(mp);
      rSeg, rp := CutSegment(rp);
      if Decode(rSeg) != Some(mSeg) {
        return None;
      }
    }
    return Some(rp);
  }

  // Past a slash and the segment behind it.
  method CutSegment(s: string) returns (segment: string, rest: string)
    requires s != ""
    ensures segment == Segment(s) && rest == Rest(s)
  {
    var t := s[1..];
    var i := IndexOf(t, '/');
    if i >= 0 {
      assert SegmentEnd(t) == i;
      return t[..i], t[i..];
    }
    return t, "";
  }

  // The raw path a mounted router passes on, or "" if there is none to match.
  method MountRawPath(hasParam: bool, prefix: string, matchedPrefix: string, rawPath: string) returns (propagated: string)
    requires Absolute(matchedPrefix)
    ensures propagated == Propagated(hasParam, prefix, matchedPrefix, rawPath)
    ensures forall rem | rem != "" :: propagated == rem <==> Leaves(hasParam, prefix, matchedPrefix, rawPath, rem)
  {
    PassesRest(hasParam, prefix, matchedPrefix, rawPath);
    propagated := "";
    if rawPath != "" {
      if hasParam {
        var rem := RawPathRemainder(matchedPrefix, rawPath);
        if rem.Some? {
          propagated := rem.value;
        }
      } else {
        var trimmed := if prefix <= rawPath then rawPath[|prefix|..] else rawPath;
        if |trimmed| == |rawPath| || (trimmed != "" && trimmed[0] != '/') {
        } else {
          propagated := trimmed;
        }
      }
    }
  }

  function Propagated(hasParam: bool, prefix: string, matched: string, raw: string): string {
    if hasParam then (if raw != "" && Remainder(matched, raw).Some? then Remainder(matched, raw).value else "")
    else if prefix != "" && prefix <= raw && Absolute(raw[|prefix|..]) then raw[|prefix|..]
    else ""
  }

  // What follows the mount point in the raw path: a rest that begins with a
  // slash, behind the prefix itself or behind segments that spell the path
  // matched.
  ghost predicate Leaves(hasParam: bool, prefix: string, matched: string, raw: string, rem: string) {
    if hasParam then
      (matched != "" ==> Absolute(rem)) && exists used :: raw == used + rem && Spells(used, matched)
    else prefix != "" && raw == prefix + rem && Absolute(rem)
  }

  // A mount passes on what follows its mount point, and nothing exactly if
  // nothing does.
  lemma PassesRest(hasParam: bool, prefix: string, matched: string, raw: string)
    requires Absolute(matched)
    ensures forall rem | rem != "" ::
              Propagated(hasParam, prefix, matched, raw) == rem <==> Leaves(hasParam, prefix, matched, raw, rem)
  {
    forall rem | rem != ""
      ensures Propagated(hasParam, prefix, matched, raw) == rem <==> Leaves(hasParam, prefix, matched, raw, rem)
    {
      if hasParam {
        ParamPasses(prefix, matched, raw, rem);
      } else if prefix <= raw {
        assert raw == prefix + raw[|prefix|..];
        assert raw == prefix + rem ==> raw[|prefix|..] == rem;
      }
    }
  }

  lemma ParamPasses(prefix: string, matched: string, raw: string, rem: string)
    requires Absolute(matched) && rem != ""
    ensures Propagated(true, prefix, matched, raw) == rem <==> Leaves(true, prefix, matched, raw, rem)
  {
    if Propagated(true, prefix, matched, raw) == rem {
      var used := RemainderSpells(matched, raw);
      assert raw == used + rem;
    }
    if Leaves(true, prefix, matched, raw, rem) {
      var used :| raw == used + rem && Spells(used, matched);
      if matched == "" {
        assert raw == rem;
      } else {
        SpelledRemains(matched, used, rem);
      }
    }
  }

  // Under a mount point with parameters: what is passed on decodes to what is
  // left of the path.
  lemma ParamMountKeepsPair(matched: string, suffix: string, raw: string)
    requires Absolute(matched) && Decode(raw) == Some(matched + suffix) && Remainder(matched, raw).Some?
    ensures Decode(Remainder(matched, raw).value) == Some(suffix)
    ensures exists used :: raw == used + Remainder(matched, raw).value && Spells(used, matched)
  {
    var used := RemainderSpells(matched, raw);
    var rem := Remainder(matched, raw).value;
    hide Decode, Remainder, IsHex;
    if matched == "" {
      assert matched + suffix == suffix && used + rem == rem;
    } else {
      SpelledDecodes(used, matched);
      DecodeConcat(used, rem);
      Cancel(matched, Decode(rem).value, suffix);
    }
  }

  lemma Cancel(a: string, b: string, c: string)
    requires a + b == a + c
    ensures b == c
  {
    assert b == (a + b)[|a|..] && c == (a + c)[|a|..];
  }

  // ---- Under a mount point without parameters ----

  // The prefix may hold a '%' itself. No slash follows one if the prefix
  // begins with its own decoding: each such slash would need an earlier one.
  lemma {:induction false} NoSlashBehind(prefix: string, i: nat, p: nat)
    requires i < p < |prefix| && prefix[i] == '%' && '%' !in prefix[..i] && prefix[p] == '/'
    requires Decode(prefix).Some? && Decode(prefix).value <= prefix
    ensures false
    decreases p
  {
    var d := Decode(prefix).value;
    var q := DecodedAt(prefix, i, p);
    assert prefix[q] == d[q];
    NoSlashBehind(prefix, i, q);
  }

  // Where the slash at `p`, behind an escape at `i`, comes in the decoding.
  lemma DecodedAt(s: string, i: nat, p: nat) returns (q: nat)
    requires i < p <= |s| && s[i] == '%' && '%' !in s[..i] && (p < |s| ==> s[p] == '/') && Decode(s).Some?
    ensures i < q < p && q <= |Decode(s).value| && (p < |s| ==> q < |Decode(s).value| && Decode(s).value[q] == '/')
    ensures p == |s| ==> q == |Decode(s).value|
  {
    var a, b := s[..p], s[p..];
    assert s == a + b;
    DecodeConcat(a, b);
    q := |Decode(a).value|;
    var c, e := a[..i], a[i..];
    assert a == c + e && c == s[..i] && e[0] == '%';
    DecodeConcat(c, e);
    DecodedLength(a);
    DecodedLength(c);
    DecodedLength(e);
    assert a[i] == '%';
    if p < |s| { assert b[0] == '/' && TokenLength(b) == 1 && TokenByte(b) == '/'; }
  }

  // Under a mount point without parameters likewise.
  lemma StaticMountKeepsPair(prefix: string, suffix: string, raw: string)
    requires prefix <= raw && Absolute(raw[|prefix|..]) && Decode(raw) == Some(prefix + suffix)
    ensures Decode(raw[|prefix|..]) == Some(suffix)
  {
    var rem := raw[|prefix|..];
    assert raw == prefix + rem;
    DecodeConcat(prefix, rem);
    var d, e := Decode(prefix).value, Decode(rem).value;
    DecodedLength(prefix);
    DecodedLength(rem);
    assert d + e == prefix + suffix;
    if '%' in prefix {
      var i := IndexOf(prefix, '%');
      assert prefix[i] == '%' && '%' !in prefix[..i];
      var q := DecodedAt(prefix, i, |prefix|);
      assert |d| < |prefix|;
      assert d <= prefix by { assert forall j | 0 <= j < |d| :: d[j] == (d + e)[j] == prefix[j]; }
      assert rem != "" && e[0] == '/' && prefix[|d|] == (d + e)[|d|];
      NoSlashBehind(prefix, i, |d|);
    } else {
      Cancel(prefix, e, suffix);
    }
  }

  // What a mount passes on is the pair of the path it passes on, or nothing.
  lemma MountKeepsPair(hasParam: bool, prefix: string, matched: string, suffix: string, raw: string)
    requires Absolute(matched) && Decode(raw) == Some(matched + suffix) && (!hasParam ==> matched == prefix)
    ensures var propagated := Propagated(hasParam, prefix, matched, raw);
            propagated != "" ==> Decode(propagated) == Some(suffix)
  {
    hide Decode, Remainder;
    if hasParam {
      if Remainder(matched, raw).Some? { ParamMountKeepsPair(matched, suffix, raw); }
    } else if prefix <= raw && Absolute(raw[|prefix|..]) {
      StaticMountKeepsPair(prefix, suffix, raw);
    }
  }

  // ---- Trailing slashes ----

  // `path` without the slashes at its end, the first byte excepted.
  function Bare(path: string): string
    decreases |path|
  {
    if |path| > 1 && path[|path| - 1] == '/' then Bare(path[..|path| - 1]) else path
  }

  // How many bytes of `rp` its last slash takes, spelled out or escaped.
  function SlashLength(rp: string): (k: nat)
    ensures k <= |rp|
  {
    if rp != "" && rp[|rp| - 1] == '/' then 1
    else if |rp| >= 3 && rp[|rp| - 3] == '%' && rp[|rp| - 2] == '2' && (rp[|rp| - 1] == 'F' || rp[|rp| - 1] == 'f') then 3
    else 0
  }

  lemma SlashToken(t: string)
    requires 0 < |t| == TokenLength(t) && TokenByte(t) == '/'
    ensures (|t| == 1 && t[0] == '/') || (|t| == 3 && t[0] == '%' && t[1] == '2' && (t[2] == 'F' || t[2] == 'f'))
  {
    if t[0] == '%' { assert 16 * HexValue(t[1]) + HexValue(t[2]) == 47; }
  }

  lemma SlashDecodes(rp: string)
    requires Decode(rp).Some? && Decode(rp).value != "" && Decode(rp).value[|Decode(rp).value| - 1] == '/'
    ensures var k, d := SlashLength(rp), Decode(rp).value;
            k > 0 && Decode(rp[..|rp| - k]) == Some(d[..|d| - 1])
  {
    hide Decode, TokenLength, TokenByte;
    var k := LastToken(rp);
    var t := rp[|rp| - k..];
    SlashToken(t);
    assert forall i | 0 <= i < k :: t[i] == rp[|rp| - k + i];
  }

  // The last `n` bytes of a decoded path are slashes, and not all there is.
  predicate EndsInSlashes(full: Option<string>, n: nat) {
    full.Some? && n < |full.value| && forall i | |full.value| - n <= i < |full.value| :: full.value[i] == '/'
  }

  lemma StripOne(full: Option<string>, n: nat, i: nat, rp: string)
    requires EndsInSlashes(full, n) && i < n && Decode(rp) == Some(full.value[..|full.value| - i])
    ensures |rp| > 1 && SlashLength(rp) > 0
    ensures Decode(rp[..|rp| - SlashLength(rp)]) == Some(full.value[..|full.value| - i - 1])
  {
    hide Decode, SlashLength;
    var d := full.value[..|full.value| - i];
    SlashDecodes(rp);
    assert d[..|d| - 1] == full.value[..|full.value| - i - 1];
    DecodedLength(rp);
  }

  // A slash at the front, spelled out or escaped: how many bytes it takes.
  function FrontSlash(s: string): nat {
    if s != "" && s[0] == '/' then 1
    else if |s| >= 3 && s[0] == '%' && s[1] == '2' && (s[2] == 'F' || s[2] == 'f') then 3
    else 0
  }

  // `s` is `k` slashes, spelled out or escaped.
  predicate Slashes(s: string, k: nat)
    decreases k
  {
    if k == 0 then s == ""
    else 0 < FrontSlash(s) <= |s| && Slashes(s[FrontSlash(s)..], k - 1)
  }

  lemma OneSlashMore(raw: string, rp: string, i: nat)
    requires rp <= raw && Slashes(raw[|rp|..], i) && SlashLength(rp) > 0
    ensures Slashes(raw[|rp| - SlashLength(rp)..], i + 1)
  {
    var k := SlashLength(rp);
    var s := raw[|rp| - k..];
    assert s[k..] == raw[|rp|..];
    assert forall j | 0 <= j < k :: s[j] == rp[|rp| - k + j];
  }

  // `i` of `n` slashes have been taken off `raw`, which leaves `rp`.
  ghost predicate Stripping(raw: string, n: nat, rp: string, i: nat) {
    && rp <= raw && Slashes(raw[|rp|..], i)
    && (EndsInSlashes(Decode(raw), n) ==>
          var full := Decode(raw).value; i <= |full| && Decode(rp) == Some(full[..|full| - i]))
  }

  lemma StripStart(raw: string, n: nat)
    ensures Stripping(raw, n, raw, 0)
  {
    var full := Decode(raw);
    if full.Some? { assert full.value[..|full.value|] == full.value; }
  }

  lemma StripStep(raw: string, n: nat, rp: string, i: nat)
    requires Stripping(raw, n, rp, i) && i < n
    ensures SlashLength(rp) > 0 ==> Stripping(raw, n, rp[..|rp| - SlashLength(rp)], i + 1)
    ensures EndsInSlashes(Decode(raw), n) ==> |rp| > 1 && SlashLength(rp) > 0
  {
    hide Decode, Slashes, SlashLength;
    if SlashLength(rp) > 0 {
      OneSlashMore(raw, rp, i);
    }
    if EndsInSlashes(Decode(raw), n) { StripOne(Decode(raw), n, i, rp); }
  }

  // Removes up to `n` slashes from the end of a raw path, fewer only if no
  // more are there or one byte is left.
  method StripTrailingPathSeparators(rawPath: string, n: nat) returns (rp: string, ghost k: nat)
    ensures rp <= rawPath && k <= n && Slashes(rawPath[|rp|..], k) && (k == n || |rp| <= 1 || SlashLength(rp) == 0)
    ensures var full := Decode(rawPath);
            EndsInSlashes(full, n) ==> Decode(rp) == Some(full.value[..|full.value| - n])
  {
    rp, k := rawPath, 0;
    var i := 0;
    StripStart(rawPath, n);
    while i < n && |rp| > 1
      invariant k == i <= n && Stripping(rawPath, n, rp, i)
    {
      StripStep(rawPath, n, rp, i);
      hide Stripping, EndsInSlashes, Slashes, Decode;
      if rp[|rp| - 1] == '/' {
        rp := rp[..|rp| - 1];
      } else if |rp| >= 3 && rp[|rp| - 3] == '%' && rp[|rp| - 2] == '2' && (rp[|rp| - 1] == 'F' || rp[|rp| - 1] == 'f') {
        rp := rp[..|rp| - 3];
      } else {
        break;
      }
      i, k := i + 1, k + 1;
    }
    if i < n { StripStep(rawPath, n, rp, i); }
    hide Slashes, Decode;
  }

  // The path and raw path the next handler sees.
  method StripSlashes(path: string, rawPath: string) returns (p: string, rp: string, ghost k: nat)
    ensures p == Bare(path) && rp <= rawPath && (p == path ==> rp == rawPath)
    ensures k <= |path| - |p| && Slashes(rawPath[|rp|..], k)
    ensures k == |path| - |p| || |rp| <= 1 || SlashLength(rp) == 0
    ensures rawPath != "" && Decode(rawPath) == Some(path) ==> Decode(rp) == Some(p)
  {
    p, rp, k := path, rawPath, 0;
    var n := 0;
    while |p| > 1 && p[|p| - 1] == '/'
      invariant n <= |path| && p == path[..|path| - n] && Bare(p) == Bare(path) && (n > 0 ==> |p| >= 1)
      invariant forall i | |path| - n <= i < |path| :: path[i] == '/'
    {
      p := p[..|p| - 1];
      n := n + 1;
    }
    if p != path && rawPath != "" {
      assert Decode(rawPath) == Some(path) ==> EndsInSlashes(Decode(rawPath), n);
      rp, k := StripTrailingPathSeparators(rawPath, n);
    }
  }

  lemma {:induction false} BareMeans(path: string)
    ensures Bare(path) <= path && (path != "" ==> Bare(path) != "")
    ensures |Bare(path)| > 1 ==> Bare(path)[|Bare(path)| - 1] != '/'
    ensures forall i | |Bare(path)| <= i < |path| :: path[i] == '/'
    ensures Bare(Bare(path)) == Bare(path)
    decreases |path|
  {
    if |path| > 1 && path[|path| - 1] == '/' {
      var shorter := path[..|path| - 1];
      BareMeans(shorter);
      assert forall i | 0 <= i < |shorter| :: path[i] == shorter[i];
    }
  }
}
