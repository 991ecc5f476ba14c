// Choosing the client's address from an X-Forwarded-For header: the scan over
// bytes, from the right, against the simple form over the list of entries.
module RealIp {
  import opened Wrappers
  import opened Patterns

  const MAX_XFF_HOPS := 30

  // An address range; an entry of the trust list may be absent.
  type Range<!A> = A -> bool

  // ---- The simple form ----

  // The entries between commas.
  function Split(s: string): (parts: seq<string>)
    ensures parts != []
    decreases |s|
  {
    var i := IndexOf(s, ',');
    if i < 0 then [s] else [s[..i]] + Split(s[i + 1..])
  }

  // At most the last 30 of them.
  function LastHops(parts: seq<string>): (hops: seq<string>)
    ensures |hops| == (if |parts| < MAX_XFF_HOPS then |parts| else MAX_XFF_HOPS) && hops == parts[|parts| - |hops|..]
  {
    if |parts| <= MAX_XFF_HOPS then parts else parts[|parts| - MAX_XFF_HOPS..]
  }

  predicate Trusts<A(!new)>(trusted: seq<Option<Range<A>>>, a: A) {
    exists i | 0 <= i < |trusted| :: trusted[i].Some? && trusted[i].value(a)
  }

  function LeftmostValid<A>(parts: seq<string>, parse: string -> Option<A>): Option<A> {
    if parts == [] then None
    else if parse(parts[0]).Some? then parse(parts[0])
    else LeftmostValid(parts[1..], parse)
  }

  function RightmostUntrusted<A(!new)>(parts: seq<string>, trusted: seq<Option<Range<A>>>, parse: string -> Option<A>): Option<A> {
    if parts == [] then None
    else
      var a := parse(parts[|parts| - 1]);
      if a.Some? && !Trusts(trusted, a.value) then a
      else RightmostUntrusted(parts[..|parts| - 1], trusted, parse)
  }

  function Selected<A(!new)>(parts: seq<string>, trusted: seq<Option<Range<A>>>, parse: string -> Option<A>): Option<A> {
    if trusted == [] then LeftmostValid(parts, parse)
    else
      var a := RightmostUntrusted(parts, trusted, parse);
      if a.Some? then a else LeftmostValid(parts, parse)
  }

  // ---- What it selects ----

  // Entry `k` is an address no trusted range holds, and every address after it
  // is in one.
  predicate LastUntrusted<A(!new)>(parts: seq<string>, trusted: seq<Option<Range<A>>>, parse: string -> Option<A>, k: nat)
    requires k < |parts|
  {
    && parse(parts[k]).Some? && !Trusts(trusted, parse(parts[k]).value)
    && forall j | k < j < |parts| :: parse(parts[j]).Some? ==> Trusts(trusted, parse(parts[j]).value)
  }

  // Entry `k` is the first that is an address.
  predicate FirstAddress<A>(parts: seq<string>, parse: string -> Option<A>, k: nat)
    requires k < |parts|
  {
    parse(parts[k]).Some? && forall j | 0 <= j < k :: parse(parts[j]).None?
  }

  lemma {:induction false} RightmostMeans<A(!new)>(parts: seq<string>, trusted: seq<Option<Range<A>>>, parse: string -> Option<A>)
    ensures var a := RightmostUntrusted(parts, trusted, parse);
            if a.Some? then exists k | 0 <= k < |parts| :: LastUntrusted(parts, trusted, parse, k) && parse(parts[k]) == a
            else forall k | 0 <= k < |parts| :: parse(parts[k]).Some? ==> Trusts(trusted, parse(parts[k]).value)
  {
    if parts != [] {
      var n := |parts| - 1;
      var b := parse(parts[n]);
      if b.Some? && !Trusts(trusted, b.value) {
        assert LastUntrusted(parts, trusted, parse, n);
      } else {
        RightmostMeans(parts[..n], trusted, parse);
        var a := RightmostUntrusted(parts[..n], trusted, parse);
        assert forall k | 0 <= k < n :: parts[k] == parts[..n][k];
        if a.Some? {
          var k :| 0 <= k < n && LastUntrusted(parts[..n], trusted, parse, k) && parse(parts[..n][k]) == a;
          assert LastUntrusted(parts, trusted, parse, k);
        }
      }
    }
  }

  lemma {:induction false} LeftmostMeans<A>(parts: seq<string>, parse: string -> Option<A>)
    ensures var a := LeftmostValid(parts, parse);
            if a.Some? then exists k | 0 <= k < |parts| :: FirstAddress(parts, parse, k) && parse(parts[k]) == a
            else forall k | 0 <= k < |parts| :: parse(parts[k]).None?
  {
    if parts != [] {
      if parse(parts[0]).Some? {
        assert FirstAddress(parts, parse, 0);
      } else {
        LeftmostMeans(parts[1..], parse);
        var a := LeftmostValid(parts[1..], parse);
        assert forall k | 0 < k < |parts| :: parts[k] == parts[1..][k - 1];
        if a.Some? {
          var k :| 0 <= k < |parts| - 1 && FirstAddress(parts[1..], parse, k) && parse(parts[1..][k]) == a;
          assert FirstAddress(parts, parse, k + 1);
        }
      }
    }
  }

  // The address the entries speak for: the last that is not trusted, if there
  // is a trust list and one is not; if not, the first address, if any.
  ghost predicate Chooses<A(!new)>(parts: seq<string>, trusted: seq<Option<Range<A>>>, parse: string -> Option<A>, found: Option<A>) {
    if trusted != [] && exists k | 0 <= k < |parts| :: Untrusted(parts[k], trusted, parse) then
      exists k | 0 <= k < |parts| :: LastUntrusted(parts, trusted, parse, k) && parse(parts[k]) == found
    else if exists k | 0 <= k < |parts| :: parse(parts[k]).Some? then
      exists k | 0 <= k < |parts| :: FirstAddress(parts, parse, k) && parse(parts[k]) == found
    else found.None?
  }

  predicate Untrusted<A(!new)>(part: string, trusted: seq<Option<Range<A>>>, parse: string -> Option<A>) {
    parse(part).Some? && !Trusts(trusted, parse(part).value)
  }

  lemma SelectedMeans<A(!new)>(parts: seq<string>, trusted: seq<Option<Range<A>>>, parse: string -> Option<A>)
    ensures Chooses(parts, trusted, parse, Selected(parts, trusted, parse))
  {
    RightmostMeans(parts, trusted, parse);
    LeftmostMeans(parts, parse);
    hide RightmostUntrusted, LeftmostValid, Trusts;
  }

  // The entries, joined by commas again.
  function Join(parts: seq<string>): string
    requires parts != []
  {
    if |parts| == 1 then parts[0] else parts[0] + [','] + Join(parts[1..])
  }

  // The entries hold no comma and joined give the header back.
  lemma {:induction false} SplitMeans(s: string)
    ensures Join(Split(s)) == s && forall k | 0 <= k < |Split(s)| :: ',' !in Split(s)[k]
    decreases |s|
  {
    var i := IndexOf(s, ',');
    if i >= 0 {
      SplitMeans(s[i + 1..]);
      assert ',' !in s[..i];
      assert Split(s)[1..] == Split(s[i + 1..]);
      assert s == s[..i] + [','] + s[i + 1..];
    }
  }

  // ---- Splitting from the right ----

  lemma Slices(s: string, i: nat, j: nat)
    requires i < j < |s|
    ensures s[..j][..i] == s[..i] && s[..j][i + 1..] == s[i + 1..j] && s[i + 1..][j - i - 1] == s[j]
    ensures s[i + 1..][..j - i - 1] == s[i + 1..j] && s[i + 1..][j - i..] == s[j + 1..]
  {
  }

  lemma FirstComma(s: string, i: nat)
    requires i < |s| && s[i] == ',' && ',' !in s[..i]
    ensures IndexOf(s, ',') == i && Split(s) == [s[..i]] + Split(s[i + 1..])
  {
    assert forall k | 0 <= k < i :: s[k] == s[..i][k];
  }

  lemma NoComma(s: string)
    requires ',' !in s
    ensures Split(s) == [s]
  {
  }

  lemma Assoc<T>(a: seq<T>, b: seq<T>, c: seq<T>)
    ensures a + b + c == a + (b + c)
  {
  }

  lemma SplitLater(s: string, i: nat, j: nat)
    requires i < j < |s| && s[i] == ',' && forall k | 0 <= k < i :: s[k] != ','
    requires var t, k := s[i + 1..], j - i - 1; Split(t) == Split(t[..k]) + Split(t[k + 1..])
    ensures Split(s) == Split(s[..j]) + Split(s[j + 1..])
  {
    hide *;
    assert ',' !in s[..i];
    Slices(s, i, j);
    FirstComma(s, i);
    FirstComma(s[..j], i);
    Assoc([s[..i]], Split(s[i + 1..j]), Split(s[j + 1..]));
  }

  lemma CommaBefore(s: string, j: nat) returns (i: nat)
    requires j < |s| && s[j] == ','
    ensures i <= j && s[i] == ',' && forall k | 0 <= k < i :: s[k] != ','
  {
    i := IndexOf(s, ',');
  }

  lemma {:induction false} SplitAt(s: string, j: nat)
    requires j < |s| && s[j] == ','
    ensures Split(s) == Split(s[..j]) + Split(s[j + 1..])
    decreases |s|
  {
    var i := CommaBefore(s, j);
    hide *;
    if i == j {
      SplitHere(s, j);
    } else {
      SplitAt(s[i + 1..], j - i - 1);
      SplitLater(s, i, j);
    }
  }

  lemma SplitHere(s: string, j: nat)
    requires j < |s| && s[j] == ',' && forall k | 0 <= k < j :: s[k] != ','
    ensures Split(s) == Split(s[..j]) + Split(s[j + 1..])
  {
    hide *;
    assert ',' !in s[..j];
    FirstComma(s, j);
    NoComma(s[..j]);
  }

  // One entry for every comma, and one more.
  lemma SplitMore(s: string, i: nat)
    requires i < |s|
    ensures |Split(s[i..])| == |Split(s[i + 1..])| + if s[i] == ',' then 1 else 0
  {
    var t := s[i..];
    assert t[1..] == s[i + 1..];
    if s[i] == ',' {
      FirstComma(t, 0);
    } else {
      var k := IndexOf(t[1..], ',');
      assert IndexOf(t, ',') == if k < 0 then -1 else k + 1;
      if k >= 0 { assert t[k + 2..] == t[1..][k + 1..]; }
    }
  }

  lemma {:induction false} RightmostSkips<A(!new)>(parts: seq<string>, more: seq<string>, trusted: seq<Option<Range<A>>>, parse: string -> Option<A>)
    requires RightmostUntrusted(more, trusted, parse).None?
    ensures RightmostUntrusted(parts + more, trusted, parse) == RightmostUntrusted(parts, trusted, parse)
    decreases |more|
  {
    if more == [] {
      assert parts + more == parts;
    } else {
      var n := |more| - 1;
      assert (parts + more)[..|parts| + n] == parts + more[..n];
      RightmostSkips(parts, more[..n], trusted, parse);
    }
  }

  lemma {:induction false} LeftmostBefore<A>(parts: seq<string>, more: seq<string>, parse: string -> Option<A>)
    ensures LeftmostValid(parts + more, parse)
         == if LeftmostValid(parts, parse).Some? then LeftmostValid(parts, parse) else LeftmostValid(more, parse)
  {
    if parts == [] {
      assert parts + more == more;
    } else {
      assert (parts + more)[1..] == parts[1..] + more;
      LeftmostBefore(parts[1..], more, parse);
    }
  }

  // ---- The scan ----

  // Where the last entries begin.
  method HopsStart(xff: string) returns (start: nat)
    ensures start <= |xff| && Split(xff[start..]) == LastHops(Split(xff))
  {
    start := 0;
    var commas := 0;
    var i := |xff| - 1;
    assert xff[|xff|..] == "";
    while i >= 0
      invariant -1 <= i < |xff| && 0 <= commas < MAX_XFF_HOPS
      invariant |Split(xff[i + 1..])| == commas + 1
    {
      SplitMore(xff, i);
      if xff[i] == ',' {
        commas := commas + 1;
        if commas == MAX_XFF_HOPS {
          SplitAt(xff, i);
          return i + 1;
        }
      }
      i := i - 1;
    }
    assert xff[0..] == xff;
  }

  method IsTrusted<A(!new)>(trusted: seq<Option<Range<A>>>, a: A) returns (yes: bool)
    ensures yes <==> Trusts(trusted, a)
  {
    for i := 0 to |trusted|
      invariant forall k | 0 <= k < i :: !(trusted[k].Some? && trusted[k].value(a))
    {
      if trusted[i].Some? && trusted[i].value(a) {
        return true;
      }
    }
    return false;
  }

  // Without a trust list: left to right.
  method ScanLeft<A>(xff: string, parse: string -> Option<A>) returns (found: Option<A>)
    ensures found == LeftmostValid(Split(xff), parse)
  {
    var rest := xff;
    while true
      invariant LeftmostValid(Split(xff), parse) == LeftmostValid(Split(rest), parse)
      decreases |rest|
    {
      var i := IndexOf(rest, ',');
      var part := if i < 0 then rest else rest[..i];
      var a := parse(part);
      if a.Some? {
        return a;
      }
      if i < 0 {
        return None;
      }
      assert Split(rest)[1..] == Split(rest[i + 1..]);
      rest := rest[i + 1..];
    }
  }

  // The entries of `s` before the last one.
  function Earlier(s: string): seq<string> {
    var i := LastIndexOf(s, ',');
    if i < 0 then [] else Split(s[..i])
  }

  lemma SplitLastAt(s: string, i: nat)
    requires i < |s| && s[i] == ',' && ',' !in s[i + 1..]
    ensures Split(s) == Split(s[..i]) + [s[i + 1..]]
  {
    hide *;
    SplitAt(s, i);
    NoComma(s[i + 1..]);
  }

  lemma SplitLast(s: string)
    ensures Split(s) == Earlier(s) + [s[LastIndexOf(s, ',') + 1..]]
  {
    var i := LastIndexOf(s, ',');
    hide Split, LastIndexOf;
    if i < 0 {
      assert s[i + 1..] == s;
      NoComma(s);
    } else {
      assert ',' !in s[i + 1..];
      SplitLastAt(s, i);
    }
  }

  // `behind` are the entries already looked at: each is trusted or no address.
  ghost predicate Scanned<A(!new)>(xff: string, end: int, behind: seq<string>, trusted: seq<Option<Range<A>>>,
                                   parse: string -> Option<A>, lastValid: Option<A>)
  {
    && end <= |xff| && Split(xff) == (if end < 0 then [] else Split(xff[..end])) + behind
    && RightmostUntrusted(behind, trusted, parse).None? && lastValid == LeftmostValid(behind, parse)
  }

  lemma OneUntrusted<A(!new)>(earlier: seq<string>, part: string, trusted: seq<Option<Range<A>>>, parse: string -> Option<A>)
    ensures var a := parse(part);
            && LeftmostValid([part], parse) == a
            && if a.Some? && !Trusts(trusted, a.value) then RightmostUntrusted(earlier + [part], trusted, parse) == a
               else RightmostUntrusted([part], trusted, parse).None?
  {
  }

  lemma LastPart(xff: string, end: nat)
    requires end <= |xff|
    ensures var i := LastIndexOf(xff[..end], ',');
            Split(xff[..end]) == (if i < 0 then [] else Split(xff[..i])) + [xff[i + 1..end]]
  {
    var before := xff[..end];
    var i := LastIndexOf(before, ',');
    SplitLast(before);
    hide Split, LastIndexOf;
    assert before[i + 1..] == xff[i + 1..end] && (i >= 0 ==> before[..i] == xff[..i]);
  }

  lemma ScannedOne<A(!new)>(xff: string, end: nat, behind: seq<string>, trusted: seq<Option<Range<A>>>,
                            parse: string -> Option<A>, lastValid: Option<A>)
    requires Scanned(xff, end, behind, trusted, parse, lastValid)
    ensures var i := LastIndexOf(xff[..end], ',');
            var a := parse(xff[i + 1..end]);
            if a.Some? && !Trusts(trusted, a.value) then RightmostUntrusted(Split(xff), trusted, parse) == a
            else Scanned(xff, i, [xff[i + 1..end]] + behind, trusted, parse, if a.Some? then a else lastValid)
  {
    var i := LastIndexOf(xff[..end], ',');
    LastPart(xff, end);
    hide Split, LastIndexOf, RightmostUntrusted, LeftmostValid, Trusts;
    ScannedNext(xff, end, i, if i < 0 then [] else Split(xff[..i]), behind, trusted, parse, lastValid);
  }

  lemma ScannedNext<A(!new)>(xff: string, end: nat, i: int, earlier: seq<string>, behind: seq<string>,
                             trusted: seq<Option<Range<A>>>, parse: string -> Option<A>, lastValid: Option<A>)
    requires end <= |xff| && -1 <= i < end && Scanned(xff, end, behind, trusted, parse, lastValid)
    requires earlier == (if i < 0 then [] else Split(xff[..i])) && Split(xff[..end]) == earlier + [xff[i + 1..end]]
    ensures var a := parse(xff[i + 1..end]);
            if a.Some? && !Trusts(trusted, a.value) then RightmostUntrusted(Split(xff), trusted, parse) == a
            else Scanned(xff, i, [xff[i + 1..end]] + behind, trusted, parse, if a.Some? then a else lastValid)
  {
    var part := xff[i + 1..end];
    assert Split(xff) == earlier + [part] + behind;
    assert RightmostUntrusted(behind, trusted, parse).None? && lastValid == LeftmostValid(behind, parse);
    Assoc(earlier, [part], behind);
    OneUntrusted(earlier, part, trusted, parse);
    hide Split, RightmostUntrusted, LeftmostValid, Trusts;
    var a := parse(part);
    if a.Some? && !Trusts(trusted, a.value) {
      RightmostSkips(earlier + [part], behind, trusted, parse);
    } else {
      RightmostSkips([part], behind, trusted, parse);
      LeftmostBefore([part], behind, parse);
    }
  }

  // With one: right to left. `lastValid` is the leftmost address so far.
  method ScanRight<A(!new)>(xff: string, trusted: seq<Option<Range<A>>>, parse: string -> Option<A>) returns (found: Option<A>)
    requires trusted != []
    ensures found == Selected(Split(xff), trusted, parse)
  {
    var lastValid: Option<A> := None;
    var end := |xff|;
    ghost var behind: seq<string> := [];
    assert xff[..end] == xff;
    while end >= 0
      invariant end <= |xff| && Scanned(xff, end, behind, trusted, parse, lastValid)
    {
      ScannedOne(xff, end, behind, trusted, parse, lastValid);
      hide Split, RightmostUntrusted, LeftmostValid, Scanned, Trusts;
      var i := LastIndexOf(xff[..end], ',');
      var part := xff[i + 1..end];
      behind := [part] + behind;
      end := i;
      var a := parse(part);
      if a.Some? {
        lastValid := a;
        var inside := IsTrusted(trusted, a.value);
        if !inside {
          return a;
        }
      }
      if i < 0 {
        break;
      }
    }
    assert Split(xff) == behind;
    return lastValid;
  }

  // The scan selects what the simple form selects from the same entries.
  method SelectXffRightmost<A(!new)>(xff: string, trusted: seq<Option<Range<A>>>, parse: string -> Option<A>) returns (found: Option<A>)
    ensures found == Selected(LastHops(Split(xff)), trusted, parse)
    ensures Chooses(LastHops(Split(xff)), trusted, parse, found)
  {
    SelectedMeans(LastHops(Split(xff)), trusted, parse);
    var start := HopsStart(xff);
    if trusted == [] {
      found := ScanLeft(xff[start..], parse);
      return;
    }
    found := ScanRight(xff[start..], trusted, parse);
  }

  // ---- What a client can do about it ----

  // Once an untrusted address is among the last entries, whatever stands to
  // the left of the header has no influence.
  lemma PrefixIgnored<A(!new)>(forged: string, xff: string, trusted: seq<Option<Range<A>>>, parse: string -> Option<A>)
    requires trusted != [] && RightmostUntrusted(LastHops(Split(xff)), trusted, parse).Some?
    ensures Selected(LastHops(Split(forged + "," + xff)), trusted, parse) == Selected(LastHops(Split(xff)), trusted, parse)
  {
    var whole := forged + "," + xff;
    SplitAt(whole, |forged|);
    assert whole[..|forged|] == forged && whole[|forged| + 1..] == xff;
    var first, last := Split(forged), Split(xff);
    assert Split(whole) == first + last;
    hide Split, RightmostUntrusted;
    var more := LastHopsMore(first, last);
    RightmostKeeps(more, LastHops(last), trusted, parse);
  }

  lemma LastHopsMore(first: seq<string>, last: seq<string>) returns (more: seq<string>)
    ensures LastHops(first + last) == more + LastHops(last)
  {
    var hops := LastHops(first + last);
    more := hops[..|hops| - |LastHops(last)|];
  }

  lemma {:induction false} RightmostKeeps<A(!new)>(more: seq<string>, parts: seq<string>, trusted: seq<Option<Range<A>>>, parse: string -> Option<A>)
    requires RightmostUntrusted(parts, trusted, parse).Some?
    ensures RightmostUntrusted(more + parts, trusted, parse) == RightmostUntrusted(parts, trusted, parse)
    decreases |parts|
  {
    var n := |parts| - 1;
    var a := parse(parts[n]);
    assert (more + parts)[..|more| + n] == more + parts[..n];
    if !(a.Some? && !Trusts(trusted, a.value)) {
      RightmostKeeps(more, parts[..n], trusted, parse);
    }
  }
}
