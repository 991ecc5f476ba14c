// The scanning loops registration and lookup share, each proved equal to the
// function that says what it computes.
module PathScan {
  import opened Patterns
  import opened RouteTree

  method LongestCommonPrefix(a: string, b: string) returns (i: nat)
    ensures i == CommonPrefix(a, b)
  {
    var limit := if |a| < |b| then |a| else |b|;
    i := 0;
    while i < limit
      invariant i <= limit && a[..i] == b[..i]
    {
      if a[i] != b[i] {
        CommonPrefixIs(a, b, i);
        return;
      }
      i := i + 1;
    }
    CommonPrefixIs(a, b, i);
  }

  lemma {:induction false} CommonPrefixIs(a: string, b: string, i: nat)
    requires i <= |a| && i <= |b| && a[..i] == b[..i]
    requires i < |a| && i < |b| ==> a[i] != b[i]
    ensures CommonPrefix(a, b) == i
    decreases i
  {
    if i > 0 {
      assert a[..i][0] == b[..i][0];
      assert a[1..][..i - 1] == a[..i][1..] && b[1..][..i - 1] == b[..i][1..];
      CommonPrefixIs(a[1..], b[1..], i - 1);
    }
  }

  // The end of the segment that starts a path, and whether the token up to it
  // holds no second wildcard byte.
  method ScanToken(path: string) returns (end: nat, valid: bool)
    requires path != "" && path[0] != '/'
    ensures end == SegmentEnd(path) && valid == Single(path[..end])
  {
    end, valid := 1, true;
    while end < |path|
      invariant 1 <= end <= |path|
      invariant forall k | 0 <= k < end :: path[k] != '/'
      invariant valid == Single(path[..end])
    {
      if path[end] == '/' {
        SegmentEndIs(path, end);
        return;
      }
      SingleStep(path, end);
      if path[end] == ':' || path[end] == '*' {
        valid := false;
      }
      end := end + 1;
    }
    SegmentEndIs(path, end);
  }

  lemma SingleStep(path: string, e: nat)
    requires 1 <= e < |path|
    ensures Single(path[..e + 1]) <==> Single(path[..e]) && path[e] != ':' && path[e] != '*'
  {
    var s, t := path[..e], path[..e + 1];
    assert forall k | 0 <= k < e :: t[k] == s[k];
    assert t[e] == path[e];
  }

  // The last '}' of the segment that starts a path.
  method ScanClose(path: string) returns (close: int)
    ensures close == LastIndexOf(path[..SegmentEnd(path)], '}')
  {
    var end := |path|;
    var k := 0;
    while k < end
      invariant 0 <= k <= end == |path|
      invariant forall i | 0 <= i < k :: path[i] != '/'
    {
      if path[k] == '/' {
        end := k;
        break;
      }
      k := k + 1;
    }
    SegmentEndIs(path, k);
    close := end - 1;
    while close >= 0 && path[close] != '}'
      invariant -1 <= close < end <= |path| && end == SegmentEnd(path)
      invariant forall i | close < i < end :: path[i] != '}'
    {
      close := close - 1;
    }
    LastIndexIs(path[..end], '}', close);
  }

  lemma {:induction false} LastIndexIs(s: string, c: char, k: int)
    requires -1 <= k < |s| && (k >= 0 ==> s[k] == c)
    requires forall i | k < i < |s| :: s[i] != c
    ensures LastIndexOf(s, c) == k
    decreases |s|
  {
    if s != "" && Last(s) != c {
      LastIndexIs(s[..|s| - 1], c, k);
    }
  }

  // FindWild, once the first `i` bytes are known to be plain.
  lemma {:induction false} FindWildFrom(path: string, i: nat)
    requires i <= |path| && Plain(path[..i])
    ensures FindWild(path)
         == (var w := FindWild(path[i..]); if w.start < 0 then w else w.(start := w.start + i))
    decreases i
  {
    if i == 0 {
      assert path[0..] == path;
    } else {
      assert path[..i][0] == path[0];
      assert path[1..][..i - 1] == path[..i][1..];
      assert path[1..][i - 1..] == path[i..];
      FindWildFrom(path[1..], i - 1);
    }
  }

  // What the first byte makes of it.
  lemma WildHere(rest: string)
    requires rest != ""
    ensures rest[0] == ':' || rest[0] == '*' ==>
              var token := rest[..SegmentEnd(rest)]; FindWild(rest) == Wild(token, 0, Single(token))
    ensures rest[0] == '{' ==>
              var close := LastIndexOf(rest[..SegmentEnd(rest)], '}');
              FindWild(rest) == if close < 0 then Wild("", 0, false) else Wild(rest[..close + 1], 0, true)
  {
    hide Single, SegmentEnd, LastIndexOf;
  }

  lemma PlainOn(path: string, i: nat)
    requires i < |path| && Plain(path[..i]) && !IsMark(path[i])
    ensures Plain(path[..i + 1])
  {
    assert path[..i + 1] == path[..i] + [path[i]];
  }

  method FindWildcard(path: string) returns (w: Wild)
    ensures w == FindWild(path)
  {
    hide FindWild, Plain, Single, SegmentEnd, LastIndexOf;
    PlainNothing(path);
    var i := 0;
    while i < |path|
      invariant 0 <= i <= |path| && Plain(path[..i])
    {
      FindWildFrom(path, i);
      var rest := path[i..];
      WildHere(rest);
      if path[i] == ':' || path[i] == '*' {
        var end, valid := ScanToken(rest);
        return Wild(rest[..end], i, valid);
      } else if path[i] == '{' {
        var close := ScanClose(rest);
        if close < 0 {
          return Wild("", i, false);
        }
        return Wild(rest[..close + 1], i, true);
      }
      PlainOn(path, i);
      i := i + 1;
    }
    FindWildFrom(path, |path|);
    WildNowhere();
    return Wild("", -1, false);
  }

  lemma WildNowhere()
    ensures FindWild("") == Wild("", -1, false)
  {
  }

  lemma PlainNothing(path: string)
    ensures Plain(path[..0])
  {
  }

  method CountPatternParams(pattern: string) returns (n: nat)
    ensures n == CountParams(pattern)
  {
    n := 0;
    var p := pattern;
    while true
      invariant CountParams(pattern) == n + CountParams(p)
      decreases |p|
    {
      var w := FindWildcard(p);
      if w.start < 0 {
        return;
      }
      n := n + 1;
      p := p[NextStart(w)..];
    }
  }

  method IndexByte(s: string, c: char) returns (k: int)
    ensures k == IndexOf(s, c)
  {
    k := 0;
    while k < |s|
      invariant 0 <= k <= |s| && forall i | 0 <= i < k :: s[i] != c
    {
      if s[k] == c {
        IndexIs(s, c, k);
        return;
      }
      k := k + 1;
    }
    k := -1;
    IndexIs(s, c, k);
  }

  lemma {:induction false} IndexIs(s: string, c: char, k: int)
    requires -1 <= k < |s| && (k >= 0 ==> s[k] == c)
    requires forall i | 0 <= i < (if k < 0 then |s| else k) :: s[i] != c
    ensures IndexOf(s, c) == k
    decreases |s|
  {
    if s != "" && k != 0 {
      IndexIs(s[1..], c, if k < 0 then -1 else k - 1);
    }
  }
}
