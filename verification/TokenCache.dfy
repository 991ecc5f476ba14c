// The cache of introspection results: a map and an expiry heap over the same
// entries, which record their own place in the heap.
module TokenCache {
  import opened Wrappers
  import opened ExpiryHeap

  // Digests of tokens.
  datatype Key = Digest(value: nat)

  // What the introspection endpoint answered.
  datatype Response = Response(id: nat)

  // Instants are integers.
  class Entry {
    const key: Key
    var resp: Response
    var expiry: int
    var idx: int

    constructor (key: Key, resp: Response, expiry: int)
      ensures this.key == key && this.resp == resp && this.expiry == expiry
    {
      this.key, this.resp, this.expiry, idx := key, resp, expiry, 0;
    }
  }

  // What the cache holds for a key.
  datatype Cached = Cached(resp: Response, expiry: int)

  // Each entry of the heap knows its place, and `ranks` are their expiries.
  ghost predicate Indexed(heap: seq<Entry>, ranks: seq<int>)
    reads heap
  {
    |ranks| == |heap| && forall i | 0 <= i < |heap| :: heap[i].idx == i && heap[i].expiry == ranks[i]
  }

  // The heap holds the entries in `parts`.
  ghost predicate Covers(heap: seq<Entry>, parts: set<Entry>) {
    (forall i | 0 <= i < |heap| :: heap[i] in parts) && forall x | x in parts :: x in heap
  }

  ghost predicate Placed(heap: seq<Entry>, parts: set<Entry>, ranks: seq<int>)
    reads heap
  {
    Indexed(heap, ranks) && Covers(heap, parts)
  }

  lemma EntryPlace(heap: seq<Entry>, parts: set<Entry>, ranks: seq<int>, e: Entry)
    requires Placed(heap, parts, ranks) && e in parts
    ensures 0 <= e.idx < |heap| && heap[e.idx] == e && heap[e.idx].idx == e.idx
  {
  }

  lemma Reindexed(heap: seq<Entry>, ranks: seq<int>, i: nat, x: int)
    requires i < |heap| == |ranks| && heap[i].expiry == x
    requires forall k | 0 <= k < |heap| :: heap[k].idx == k && (k != i ==> heap[k].expiry == ranks[k])
    ensures Indexed(heap, ranks[i := x])
  {
  }

  lemma SwapCovers(heap: seq<Entry>, parts: set<Entry>, i: nat, j: nat)
    requires i < |heap| && j < |heap| && Covers(heap, parts)
    ensures Covers(Swapped(heap, i, j), parts)
  {
    var r := Swapped(heap, i, j);
    forall x | x in parts ensures x in r {
      var k :| 0 <= k < |heap| && heap[k] == x;
      assert r[if k == i then j else if k == j then i else k] == x;
    }
  }

  lemma CutCovers(heap: seq<Entry>, parts: set<Entry>, ranks: seq<int>)
    requires heap != [] && Placed(heap, parts, ranks)
    ensures var n := |heap| - 1; heap[n] in parts && heap[n] !in heap[..n] && Covers(heap[..n], parts - {heap[n]})
  {
    var n := |heap| - 1;
    forall k | 0 <= k < n ensures heap[k] != heap[n] { assert heap[k].idx == k; }
    forall x | x in parts && x != heap[n] ensures x in heap[..n] {
      var k :| 0 <= k < |heap| && heap[k] == x;
      assert heap[..n][k] == x;
    }
  }

  // The map holds the same entries as the heap.
  ghost predicate Bound(entries: map<Key, Entry>, parts: set<Entry>) {
    && (forall e | e in parts :: e.key in entries && entries[e.key] == e)
    && forall k | k in entries :: entries[k] in parts && entries[k].key == k
  }

  // What the entries hold.
  ghost predicate Filled(entries: map<Key, Entry>, parts: set<Entry>, contents: map<Key, Cached>)
    reads parts
  {
    && (forall k | k in contents :: k in entries)
    && forall k | k in entries :: k in contents && entries[k] in parts && contents[k] == Cached(entries[k].resp, entries[k].expiry)
  }

  // What the entries of the other keys hold.
  ghost predicate FilledBut(entries: map<Key, Entry>, rest: set<Entry>, contents: map<Key, Cached>, key: Key)
    reads rest
  {
    && (forall k | k in contents :: k in entries)
    && forall k | k in entries && k != key ::
         k in contents && entries[k] in rest && contents[k] == Cached(entries[k].resp, entries[k].expiry)
  }

  lemma FilledRest(entries: map<Key, Entry>, parts: set<Entry>, contents: map<Key, Cached>, key: Key)
    requires Bound(entries, parts) && Filled(entries, parts, contents) && key in entries
    ensures entries[key] in parts && FilledBut(entries, parts - {entries[key]}, contents, key)
  {
  }

  lemma FilledBack(entries: map<Key, Entry>, parts: set<Entry>, contents: map<Key, Cached>, key: Key)
    requires key in entries && entries[key] in parts && FilledBut(entries, parts - {entries[key]}, contents, key)
    ensures Filled(entries, parts, contents[key := Cached(entries[key].resp, entries[key].expiry)])
  {
  }

  // Everything the cache holds is the last value set for its key.
  predicate Current(c: map<Key, Cached>, latest: map<Key, Cached>) { forall k | k in c :: k in latest && latest[k] == c[k] }

  lemma SameSize(entries: map<Key, Entry>, parts: set<Entry>, contents: map<Key, Cached>)
    requires Filled(entries, parts, contents)
    ensures |entries| == |contents|
  {
    assert entries.Keys == contents.Keys;
    assert |entries| == |entries.Keys| && |contents| == |contents.Keys|;
  }

  lemma FilledLess(entries: map<Key, Entry>, parts: set<Entry>, contents: map<Key, Cached>, e: Entry)
    requires Filled(entries, parts, contents) && Bound(entries, parts)
    ensures Filled(entries - {e.key}, parts - {e}, contents - {e.key})
  {
  }

  lemma FilledMore(entries: map<Key, Entry>, parts: set<Entry>, contents: map<Key, Cached>, e: Entry)
    requires Filled(entries, parts, contents)
    ensures Filled(entries[e.key := e], parts + {e}, contents[e.key := Cached(e.resp, e.expiry)])
  {
  }

  lemma BoundRemove(entries: map<Key, Entry>, parts: set<Entry>, e: Entry)
    requires Bound(entries, parts) && e in parts
    ensures e.key in entries && Bound(entries - {e.key}, parts - {e}) && |entries - {e.key}| == |entries| - 1
  {
    assert (entries - {e.key}).Keys == entries.Keys - {e.key};
    assert |entries - {e.key}| == |(entries - {e.key}).Keys|;
  }

  lemma BoundAdd(entries: map<Key, Entry>, parts: set<Entry>, e: Entry)
    requires Bound(entries, parts) && e.key !in entries
    ensures e !in parts && Bound(entries[e.key := e], parts + {e})
  {
  }

  lemma CurrentSet(c: map<Key, Cached>, latest: map<Key, Cached>, key: Key, x: Cached)
    requires Current(c, latest)
    ensures Current(c[key := x], latest[key := x])
  {
  }

  lemma KeysAre(entries: map<Key, Entry>, parts: set<Entry>, contents: map<Key, Cached>)
    requires Filled(entries, parts, contents)
    ensures forall k :: k in entries <==> k in contents
  {
  }

  class Cache {
    var entries: map<Key, Entry>
    var heap: seq<Entry>
    const maxSize: int
    // The entries, their expiries in heap order, what they hold, and the last
    // values ever set.
    ghost var parts: set<Entry>
    ghost var ranks: seq<int>
    ghost var contents: map<Key, Cached>
    ghost var latest: map<Key, Cached>

    ghost predicate Valid()
      reads this, heap, parts
    {
      && Placed(heap, parts, ranks) && Bound(entries, parts) && Filled(entries, parts, contents) && Ordered(ranks, |ranks|)
      && (|contents| <= maxSize || contents == map[]) && Current(contents, latest)
    }

    constructor (maxSize: int)
      ensures Valid() && this.maxSize == maxSize && contents == map[] && latest == map[]
    {
      entries, heap := map[], [];
      parts, ranks, contents, latest := {}, [], map[], map[];
      this.maxSize := maxSize;
    }

    // A hit is the last value set for the key, and not expired.
    method Get(key: Key, now: int) returns (resp: Option<Response>)
      requires Valid()
      ensures resp == if key in contents && now <= contents[key].expiry then Some(contents[key].resp) else None
      ensures resp.Some? ==> key in latest && latest[key].resp == resp.value && now <= latest[key].expiry
    {
      if key !in entries || now > entries[key].expiry {
        return None;
      }
      return Some(entries[key].resp);
    }

    // ---- The heap algorithms ----

    method Swap(i: nat, j: nat)
      requires i < |heap| && j < |heap| && Placed(heap, parts, ranks)
      modifies this`heap, this`ranks, parts`idx
      ensures Placed(heap, parts, ranks) && heap == Swapped(old(heap), i, j) && ranks == Swapped(old(ranks), i, j)
    {
      SwapCovers(heap, parts, i, j);
      hide Covers;
      heap := heap[i := heap[j]][j := heap[i]];
      ranks := Swapped(ranks, i, j);
      heap[i].idx := i;
      heap[j].idx := j;
    }

    method Up(start: nat)
      requires start < |heap| && Placed(heap, parts, ranks) && OrderedAbove(ranks, |ranks|, start)
      modifies this`heap, this`ranks, parts`idx
      ensures Placed(heap, parts, ranks) && Ordered(ranks, |ranks|)
    {
      hide OrderedAbove, Ordered, Swapped, Covers;
      var j: nat := start;
      while true
        invariant j < |heap| && Placed(heap, parts, ranks) && OrderedAbove(ranks, |ranks|, j)
        decreases j
      {
        var i := if j == 0 then 0 else (j - 1) / 2;
        if i == j || !(heap[j].expiry < heap[i].expiry) {
          break;
        }
        UpStep(ranks, |ranks|, j);
        Swap(i, j);
        j := i;
      }
      UpDone(ranks, |ranks|, j);
    }

    // Works on the first `n` elements.
    method Down(start: nat, n: nat) returns (moved: bool)
      requires start < n <= |heap| && Placed(heap, parts, ranks) && OrderedBut(ranks, n, start)
      modifies this`heap, this`ranks, parts`idx
      ensures Placed(heap, parts, ranks) && |heap| == old(|heap|) && heap[n..] == old(heap)[n..]
      ensures moved ==> Ordered(ranks, n)
      ensures !moved ==> heap == old(heap) && ranks == old(ranks) && OrderedAbove(ranks, n, start)
    {
      hide OrderedBut, OrderedAbove, OrderedBelow, Ordered, SmallerChild, Swapped, Covers;
      var i := start;
      while true
        invariant start <= i < n <= |heap| == old(|heap|) && Placed(heap, parts, ranks) && heap[n..] == old(heap)[n..]
        invariant OrderedBut(ranks, n, i)
        invariant if i == start then heap == old(heap) && ranks == old(ranks) else OrderedBelow(ranks, n, i)
        decreases n - i
      {
        var j1 := 2 * i + 1;
        if j1 >= n {
          break;
        }
        var j := j1;
        if j1 + 1 < n && heap[j1 + 1].expiry < heap[j1].expiry {
          j := j1 + 1;
        }
        if !(heap[j].expiry < heap[i].expiry) {
          break;
        }
        PickChild(ranks, n, i, j);
        DownStep(ranks, n, i, j);
        Swap(i, j);
        i := j;
      }
      DownDone(ranks, n, i);
      moved := i > start;
    }

    method Fix(i: nat)
      requires i < |heap| && Placed(heap, parts, ranks) && OrderedBut(ranks, |ranks|, i)
      modifies this`heap, this`ranks, parts`idx
      ensures Placed(heap, parts, ranks) && Ordered(ranks, |ranks|)
    {
      hide Placed;
      SameLength();
      var moved := Down(i, |heap|);
      SameLength();
      if !moved {
        Up(i);
      }
    }

    lemma SameLength()
      requires Placed(heap, parts, ranks)
      ensures |heap| == |ranks|
    {
    }

    method Push(e: Entry)
      requires Placed(heap, parts, ranks) && Ordered(ranks, |ranks|) && e !in parts
      modifies this`heap, this`ranks, this`parts, parts`idx, e`idx
      ensures Placed(heap, parts, ranks) && Ordered(ranks, |ranks|) && parts == old(parts) + {e}
    {
      hide Ordered, OrderedAbove;
      Appended(ranks, e.expiry);
      e.idx := |heap|;
      heap, ranks, parts := heap + [e], ranks + [e.expiry], parts + {e};
      Up(|heap| - 1);
    }

    // Takes the entry with the earliest expiry out.
    method Pop() returns (e: Entry)
      requires heap != [] && Placed(heap, parts, ranks) && Ordered(ranks, |ranks|)
      modifies this`heap, this`ranks, this`parts, parts`idx
      ensures Placed(heap, parts, ranks) && Ordered(ranks, |ranks|)
      ensures e == old(heap[0]) && parts == old(parts) - {e}
    {
      hide Ordered, OrderedBut, OrderedAbove, OrderedBelow, Swapped, Placed;
      SameLength();
      var n := |heap| - 1;
      LastToRoot(ranks);
      ghost var before := heap;
      Swap(0, n);
      SwappedEnds(before);
      SameLength();
      if n > 0 {
        var moved := Down(0, n);
        if !moved { UpDone(ranks, n, 0); }
      } else {
        NothingOrdered(ranks);
      }
      assert heap[n] == heap[n..][0];
      SameLength();
      FirstOrdered(ranks, n);
      e := DropLast();
    }

    // The heap's own Pop: cuts the last element off.
    method DropLast() returns (e: Entry)
      requires heap != [] && Placed(heap, parts, ranks)
      modifies this`heap, this`ranks, this`parts, parts`idx
      ensures e == old(heap[|heap| - 1]) && parts == old(parts) - {e}
      ensures Placed(heap, parts, ranks) && ranks == old(ranks[..|ranks| - 1]) && |ranks| == old(|heap|) - 1
    {
      CutCovers(heap, parts, ranks);
      hide Covers;
      var n := |heap| - 1;
      e := heap[n];
      e.idx := -1;
      heap, ranks, parts := heap[..n], ranks[..n], parts - {e};
    }

    // ---- Eviction and insertion ----

    // Takes one entry out, one that expires no later than any other.
    method EvictOne() returns (evicted: bool, ghost victim: Key)
      requires Valid()
      modifies this`heap, this`entries, this`ranks, this`parts, this`contents, parts`idx
      ensures Valid() && parts <= old(parts)
      ensures !evicted ==> contents == old(contents) == map[]
      ensures evicted ==> Evicts(old(contents), victim) && contents == old(contents) - {victim} && |contents| < old(|contents|)
    {
      if heap == [] {
        assert contents.Keys == {};
        return false, Digest(0);
      }
      RootEvicts();
      hide Placed, Bound, Ordered, Evicts, Filled;
      victim := heap[0].key;
      Smaller(contents, victim);
      RemoveRoot();
      evicted := true;
    }

    method RemoveRoot()
      requires heap != [] && Placed(heap, parts, ranks) && Ordered(ranks, |ranks|)
      requires Bound(entries, parts) && Filled(entries, parts, contents)
      modifies this`heap, this`entries, this`ranks, this`parts, this`contents, parts`idx
      ensures Placed(heap, parts, ranks) && Ordered(ranks, |ranks|) && Bound(entries, parts) && Filled(entries, parts, contents)
      ensures parts <= old(parts) && contents == old(contents) - {old(heap[0]).key}
    {
      assert heap[0] in parts;
      BoundRemove(entries, parts, heap[0]);
      FilledLess(entries, parts, contents, heap[0]);
      hide Placed, Bound, Ordered, Filled;
      var e := PopKeeping(entries - {heap[0].key}, contents - {heap[0].key});
      entries := entries - {e.key};
      contents := contents - {e.key};
    }

    method PopKeeping(ghost es: map<Key, Entry>, ghost c: map<Key, Cached>) returns (e: Entry)
      requires heap != [] && Placed(heap, parts, ranks) && Ordered(ranks, |ranks|) && Filled(es, parts - {heap[0]}, c)
      modifies this`heap, this`ranks, this`parts, parts`idx
      ensures Placed(heap, parts, ranks) && Ordered(ranks, |ranks|) && Filled(es, parts, c)
      ensures e == old(heap[0]) && parts == old(parts) - {e}
    {
      hide Placed, Ordered;
      e := Pop();
    }

    lemma RootEvicts()
      requires Valid() && heap != []
      ensures heap[0] in parts && heap[0].key in entries && Evicts(contents, heap[0].key)
    {
      forall k | k in contents ensures contents[heap[0].key].expiry <= contents[k].expiry {
        EntryPlace(heap, parts, ranks, entries[k]);
        RootLeast(ranks, |ranks|, entries[k].idx);
      }
    }

    // Stores a value, making room first if the cache is full.
    method Set(key: Key, resp: Response, expiry: int)
      requires Valid()
      modifies this, parts
      ensures Valid() && latest == old(latest)[key := Cached(resp, expiry)]
      ensures Stores(old(contents), key, Cached(resp, expiry), maxSize, contents)
    {
      ghost var c, x := contents, Cached(resp, expiry);
      ValidParts();
      KeysAre(entries, parts, contents);
      hide *;
      if key in entries {
        Overwrite(key, resp, expiry);
        StoresInPlace(c, key, x, maxSize);
        return;
      }
      if |entries| >= maxSize {
        var evicted, victim := EvictOne();
        if !evicted {
          StoresNothing(c, key, x, maxSize);
          Forget(key, x);
          return;
        }
        StoresEvicting(c, victim, key, x, maxSize);
      } else {
        StoresInPlace(c, key, x, maxSize);
      }
      Add(key, resp, expiry);
    }

    ghost method Forget(key: Key, x: Cached)
      requires Valid() && contents == map[]
      modifies this`latest
      ensures Valid() && latest == old(latest)[key := x]
    {
      assert Current(contents, latest[key := x]);
      hide Placed, Bound, Filled, Ordered, Current;
      latest := latest[key := x];
    }

    ghost method Remember(key: Key, x: Cached)
      requires Placed(heap, parts, ranks) && Bound(entries, parts) && Filled(entries, parts, contents) && Ordered(ranks, |ranks|)
      requires (|contents| <= maxSize || contents == map[]) && Current(contents, latest[key := x])
      modifies this`latest
      ensures Valid() && latest == old(latest)[key := x]
    {
      hide Placed, Bound, Filled, Ordered, Current;
      latest := latest[key := x];
    }

    method Overwrite(key: Key, resp: Response, expiry: int)
      requires Valid() && key in entries
      modifies this`heap, this`ranks, this`contents, this`latest, parts
      ensures Valid() && latest == old(latest)[key := Cached(resp, expiry)]
      ensures contents == old(contents)[key := Cached(resp, expiry)]
    {
      ValidParts();
      KeysAre(entries, parts, contents);
      CurrentSet(contents, latest, key, Cached(resp, expiry));
      SetSize(contents, key, Cached(resp, expiry));
      hide *;
      Refresh(key, resp, expiry);
      Remember(key, Cached(resp, expiry));
    }

    method Add(key: Key, resp: Response, expiry: int)
      requires Valid() && key !in contents && |contents| < maxSize
      modifies this`heap, this`entries, this`ranks, this`parts, this`contents, this`latest, parts
      ensures Valid() && latest == old(latest)[key := Cached(resp, expiry)]
      ensures contents == old(contents)[key := Cached(resp, expiry)]
    {
      ValidParts();
      KeysAre(entries, parts, contents);
      CurrentSet(contents, latest, key, Cached(resp, expiry));
      SetSize(contents, key, Cached(resp, expiry));
      hide *;
      Insert(key, resp, expiry);
      Remember(key, Cached(resp, expiry));
    }

    lemma ValidParts()
      requires Valid()
      ensures Placed(heap, parts, ranks) && Bound(entries, parts) && Filled(entries, parts, contents) && Ordered(ranks, |ranks|)
      ensures (|contents| <= maxSize || contents == map[]) && Current(contents, latest) && |entries| == |contents|
    {
      SameSize(entries, parts, contents);
    }

    // A key the cache holds gets a new value.
    method Refresh(key: Key, resp: Response, expiry: int)
      requires Placed(heap, parts, ranks) && Ordered(ranks, |ranks|) && Bound(entries, parts) && Filled(entries, parts, contents)
      requires key in entries && entries[key] in parts
      modifies this`heap, this`ranks, this`contents, parts
      ensures Placed(heap, parts, ranks) && Ordered(ranks, |ranks|) && Filled(entries, parts, contents)
      ensures contents == old(contents)[key := Cached(resp, expiry)]
    {
      Rewrite(entries[key], key, resp, expiry);
      Reposition(entries[key].idx);
    }

    method Rewrite(e: Entry, key: Key, resp: Response, expiry: int)
      requires Placed(heap, parts, ranks) && Ordered(ranks, |ranks|) && Bound(entries, parts) && Filled(entries, parts, contents)
      requires key in entries && entries[key] == e
      modifies this`ranks, this`contents, e`resp, e`expiry
      ensures Placed(heap, parts, ranks) && Filled(entries, parts, contents)
      ensures 0 <= e.idx < |heap| && OrderedBut(ranks, |ranks|, e.idx)
      ensures contents == old(contents)[key := Cached(resp, expiry)]
    {
      FilledRest(entries, parts, contents, key);
      hide *;
      Write(e, resp, expiry);
      FilledBack(entries, parts, contents, key);
      contents := contents[key := Cached(resp, expiry)];
    }

    // Puts the entry where its expiry belongs.
    method Reposition(i: nat)
      requires i < |heap| && Placed(heap, parts, ranks) && OrderedBut(ranks, |ranks|, i) && Filled(entries, parts, contents)
      modifies this`heap, this`ranks, parts`idx
      ensures Placed(heap, parts, ranks) && Ordered(ranks, |ranks|) && Filled(entries, parts, contents)
    {
      hide Placed, Ordered, OrderedBut;
      Fix(i);
    }

    // Writes the new value into the entry, which may then be out of order.
    method Write(e: Entry, resp: Response, expiry: int)
      requires Placed(heap, parts, ranks) && Ordered(ranks, |ranks|) && e in parts
      modifies this`ranks, e`resp, e`expiry
      ensures Placed(heap, parts, ranks) && 0 <= e.idx < |heap| && OrderedBut(ranks, |ranks|, e.idx)
      ensures e.resp == resp && e.expiry == expiry
    {
      EntryPlace(heap, parts, ranks, e);
      Reset(ranks, e.idx, expiry);
      ghost var i, before := e.idx, ranks;
      assert |ranks| == |heap| && forall k | 0 <= k < |heap| :: heap[k].idx == k && heap[k].expiry == ranks[k];
      hide Ordered, OrderedBut, Bound, Covers, Indexed;
      e.resp := resp;
      e.expiry := expiry;
      ranks := ranks[i := expiry];
      Reindexed(heap, before, i, expiry);
    }

    // A key it does not hold gets an entry.
    method Insert(key: Key, resp: Response, expiry: int)
      requires Placed(heap, parts, ranks) && Ordered(ranks, |ranks|) && Bound(entries, parts) && Filled(entries, parts, contents)
      requires key !in entries
      modifies this`heap, this`entries, this`ranks, this`parts, this`contents, parts
      ensures Placed(heap, parts, ranks) && Ordered(ranks, |ranks|) && Bound(entries, parts) && Filled(entries, parts, contents)
      ensures contents == old(contents)[key := Cached(resp, expiry)]
    {
      var e := new Entry(key, resp, expiry);
      BoundAdd(entries, parts, e);
      FilledMore(entries, parts, contents, e);
      hide Placed, Bound, Ordered, Filled;
      PushKeeping(e, entries[key := e], contents[key := Cached(resp, expiry)]);
      entries := entries[key := e];
      contents := contents[key := Cached(resp, expiry)];
    }

    method PushKeeping(e: Entry, ghost es: map<Key, Entry>, ghost c: map<Key, Cached>)
      requires Placed(heap, parts, ranks) && Ordered(ranks, |ranks|) && e !in parts && Filled(es, parts + {e}, c)
      modifies this`heap, this`ranks, this`parts, parts`idx, e`idx
      ensures Placed(heap, parts, ranks) && Ordered(ranks, |ranks|) && Filled(es, parts, c) && parts == old(parts) + {e}
    {
      hide Placed, Ordered;
      Push(e);
    }
  }

  // `victim` is a key that may be evicted: none expires sooner.
  predicate Evicts(c: map<Key, Cached>, victim: Key) {
    victim in c && forall k | k in c :: c[victim].expiry <= c[k].expiry
  }

  lemma Smaller(c: map<Key, Cached>, victim: Key)
    requires Evicts(c, victim)
    ensures |c - {victim}| == |c| - 1
  {
    assert (c - {victim}).Keys == c.Keys - {victim};
    assert |c - {victim}| == |(c - {victim}).Keys|;
  }

  // What storing `x` makes of the contents.
  ghost predicate Stores(c: map<Key, Cached>, key: Key, x: Cached, maxSize: int, d: map<Key, Cached>) {
    if key in c || |c| < maxSize then d == c[key := x]
    else if c == map[] then d == map[]
    else exists victim :: Evicts(c, victim) && d == (c - {victim})[key := x]
  }

  lemma StoresInPlace(c: map<Key, Cached>, key: Key, x: Cached, maxSize: int)
    requires key in c || |c| < maxSize
    ensures Stores(c, key, x, maxSize, c[key := x]) && |c[key := x]| == |c| + if key in c then 0 else 1
  {
    SetSize(c, key, x);
  }

  lemma SetSize(c: map<Key, Cached>, key: Key, x: Cached)
    ensures |c[key := x]| == |c| + if key in c then 0 else 1
  {
    assert c[key := x].Keys == c.Keys + {key};
    assert |c[key := x]| == |c[key := x].Keys| && |c| == |c.Keys|;
  }

  lemma StoresNothing(c: map<Key, Cached>, key: Key, x: Cached, maxSize: int)
    requires c == map[] && |c| >= maxSize
    ensures Stores(c, key, x, maxSize, map[]) && forall latest :: Current(c, latest)
  {
  }

  lemma StoresEvicting(c: map<Key, Cached>, victim: Key, key: Key, x: Cached, maxSize: int)
    requires key !in c && |c| >= maxSize && Evicts(c, victim)
    ensures Stores(c, key, x, maxSize, (c - {victim})[key := x])
  {
  }

  lemma SwappedEnds<T>(s: seq<T>)
    requires s != []
    ensures var r := Swapped(s, 0, |s| - 1); r[|s| - 1] == s[0]
  {
  }

  // Storing keeps the bound and what was stored; of the other keys at most one
  // is lost, and that one only from a full cache and expiring no later than
  // all the rest.
  lemma StoresMeans(c: map<Key, Cached>, key: Key, x: Cached, maxSize: int, d: map<Key, Cached>)
    requires Stores(c, key, x, maxSize, d) && |c| <= maxSize && maxSize > 0
    ensures key in d && d[key] == x && |d| <= maxSize
    ensures forall k | k in d && k != key :: k in c && d[k] == c[k]
    ensures forall k, l | k in c && l in c && k !in d ::
              key !in c && |c| == maxSize && c[k].expiry <= c[l].expiry && (l !in d ==> k == l)
  {
    if key in c || |c| < maxSize {
      SetSize(c, key, x);
    } else {
      var victim :| Evicts(c, victim) && d == (c - {victim})[key := x];
      Smaller(c, victim);
      SetSize(c - {victim}, key, x);
    }
  }

  // ---- Sequences of calls of Set ----

  datatype Call = Call(key: Key, value: Cached)

  // The last value for each key.
  function Latest(calls: seq<Call>): map<Key, Cached> {
    if calls == [] then map[] else var last := calls[|calls| - 1]; Latest(calls[..|calls| - 1])[last.key := last.value]
  }

  ghost predicate Stored(calls: seq<Call>, states: seq<map<Key, Cached>>, maxSize: int) {
    && |states| == |calls| + 1 && states[0] == map[]
    && forall k | 0 <= k < |calls| :: Stores(states[k], calls[k].key, calls[k].value, maxSize, states[k + 1])
  }

  // As long as no more keys have been set than fit, nothing is lost.
  lemma {:induction false} NothingLost(calls: seq<Call>, states: seq<map<Key, Cached>>, maxSize: int)
    requires Stored(calls, states, maxSize) && |Latest(calls)| <= maxSize
    ensures states[|calls|] == Latest(calls)
    decreases |calls|
  {
    if calls != [] {
      var n := |calls| - 1;
      var before := calls[..n];
      SetSize(Latest(before), calls[n].key, calls[n].value);
      assert Stored(before, states[..n + 1], maxSize);
      NothingLost(before, states[..n + 1], maxSize);
      assert states[n] == states[..n + 1][n];
    }
  }
}
