/**
 * The address space allocator: used regions, free regions indexed by address and by length, and the heap that grows
 * down.
 */
module MemoryMap {
  import opened Wrappers
  import opened OrderedKeys
  import opened Sequences
  import opened MemoryTiles

  const PAGE := 4096
  /** Unmapped space below a stack. */
  const GUARD := 16384
  const LENGTH_LIMIT := 0x8000_0000_0000
  const MODULUS := 0x1_0000_0000_0000_0000

  datatype Region = Region(length: nat, stack: bool)

  /** Groups list the free regions of one length, the latest first. */
  datatype State = State(regions: map<nat, Region>, free: map<nat, nat>, groups: map<nat, seq<nat>>, tiles: Tiles,
    heap: nat, top: nat)

  function Guard(stack: bool): nat
  {
    if stack then GUARD else 0
  }

  // ---------------------------------------------------------------------------
  // The two indexes of the free regions
  // ---------------------------------------------------------------------------

  ghost predicate GroupOk(free: map<nat, nat>, l: seq<nat>, length: nat)
  {
    l != [] && Once(l) && forall i :: 0 <= i < |l| ==> l[i] in free && free[l[i]] == length
  }

  /** The length groups and the address tree hold the same free regions; no group is empty. */
  ghost predicate GroupsOk(free: map<nat, nat>, groups: map<nat, seq<nat>>)
  {
    && (forall n :: n in groups ==> GroupOk(free, groups[n], n))
    && forall a :: a in free ==> free[a] in groups && a in groups[free[a]]
  }

  function Except(l: seq<nat>, a: nat): (r: seq<nat>)
  {
    if l == [] then [] else if l[0] == a then l[1..] else [l[0]] + Except(l[1..], a)
  }

  lemma {:induction false} ExceptOnce(l: seq<nat>, a: nat)
    requires Once(l)
    ensures Once(Except(l, a)) && forall x :: x in Except(l, a) <==> x in l && x != a
  {
    if l != [] {
      assert Once(l[1..]);
      ExceptOnce(l[1..], a);
      assert forall x :: x in l <==> x == l[0] || x in l[1..];
      assert l[0] !in l[1..];
      if l[0] != a {
        var r := Except(l[1..], a);
        assert Except(l, a) == [l[0]] + r;
        assert l[0] !in r;
      }
    }
  }

  lemma PopGroups(free: map<nat, nat>, groups: map<nat, seq<nat>>, a: nat)
    requires GroupsOk(free, groups) && a in free
    ensures free[a] in groups
    ensures var r := Except(groups[free[a]], a);
            GroupsOk(free - {a}, if r == [] then groups - {free[a]} else groups[free[a] := r])
  {
    hide Except;
    var n := free[a];
    assert GroupOk(free, groups[n], n);
    ExceptOnce(groups[n], a);
    var r := Except(groups[n], a);
    var g := if r == [] then groups - {n} else groups[n := r];
    forall k | k in g ensures GroupOk(free - {a}, g[k], k) {
      assert GroupOk(free, groups[k], k);
      if k == n {
        forall i | 0 <= i < |r| ensures r[i] in free - {a} && (free - {a})[r[i]] == n {
          assert r[i] in groups[n];
        }
      } else {
        assert forall i :: 0 <= i < |g[k]| ==> g[k][i] != a;
      }
    }
    forall x | x in free - {a} ensures free[x] in g && x in g[free[x]] {
      if free[x] == n {
        assert x in r;
      }
    }
  }

  lemma PushGroups(free: map<nat, nat>, groups: map<nat, seq<nat>>, a: nat, n: nat)
    requires GroupsOk(free, groups) && a !in free
    ensures GroupsOk(free[a := n], groups[n := [a] + if n in groups then groups[n] else []])
  {
    var l := [a] + if n in groups then groups[n] else [];
    var f, g := free[a := n], groups[n := l];
    if n in groups { assert GroupOk(free, groups[n], n); }
    forall k | k in g ensures GroupOk(f, g[k], k) {
      if k != n {
        assert GroupOk(free, groups[k], k);
      }
    }
    assert l[0] == a;
    forall x | x in f ensures f[x] in g && x in g[f[x]] {
      if x != a && f[x] == n {
        assert x in groups[n];
        var i :| 0 <= i < |groups[n]| && groups[n][i] == x;
        assert l[i + 1] == x;
      }
    }
  }

  // ---------------------------------------------------------------------------
  // Regions and tiles
  // ---------------------------------------------------------------------------

  function Start(k: nat, r: Region): int
  {
    k - Guard(r.stack)
  }

  ghost predicate RegionOk(s: State, k: nat, pending: set<nat>)
    requires k in s.regions
  {
    var a := Start(k, s.regions[k]);
    a >= 0 && a in s.tiles && s.tiles[a] == s.regions[k].length + Guard(s.regions[k].stack) && a !in s.free
      && a !in pending && s.regions[k].length >= 1
  }

  ghost predicate FreeOk(s: State, a: nat, pending: set<nat>)
    requires a in s.free
  {
    a in s.tiles && s.tiles[a] == s.free[a] && a !in pending
  }

  ghost predicate HasRegion(s: State, a: nat)
  {
    exists k :: k in s.regions && Start(k, s.regions[k]) == a
  }

  /** Every tile is a used region with its guard, a free region, or pending; no tile is two of these. */
  ghost predicate TilesOk(s: State, pending: set<nat>)
  {
    && (forall k :: k in s.regions ==> RegionOk(s, k, pending)) && StartsOnce(s.regions)
    && (forall a :: a in s.free ==> FreeOk(s, a, pending)) && (forall a :: a in s.tiles ==> TileOk(s, a, pending))
  }

  ghost predicate StartsOnce(regions: map<nat, Region>)
  {
    forall j, k :: j in regions && k in regions && Start(j, regions[j]) == Start(k, regions[k]) ==> j == k
  }

  ghost predicate TileOk(s: State, a: nat, pending: set<nat>)
  {
    a in s.free || a in pending || HasRegion(s, a)
  }

  ghost predicate Inv(s: State, pending: set<nat>)
  {
    Tiling(s.tiles, s.heap, s.top) && GroupsOk(s.free, s.groups) && TilesOk(s, pending)
  }

  /** Tile changes that leave regions and the other free regions alone. */
  lemma RetiledOk(s: State, pending: set<nat>, t: State, pending': set<nat>)
    requires TilesOk(s, pending) && t.regions == s.regions
    requires forall a :: a in t.free ==> FreeOk(t, a, pending')
    requires forall a :: a in t.tiles ==>
             a in t.free || a in pending' || (a in s.tiles && a !in s.free && a !in pending)
    requires forall a :: a in s.tiles && a !in s.free && a !in pending ==>
             a in t.tiles && t.tiles[a] == s.tiles[a] && a !in t.free && a !in pending'
    ensures TilesOk(t, pending')
  {
    forall k | k in t.regions ensures RegionOk(t, k, pending') {
      assert RegionOk(s, k, pending);
    }
    forall a | a in t.tiles ensures TileOk(t, a, pending') {
      if a !in t.free && a !in pending' {
        assert TileOk(s, a, pending);
        var k :| k in s.regions && Start(k, s.regions[k]) == a;
        assert k in t.regions && Start(k, t.regions[k]) == a;
      }
    }
  }

  /** The region that holds an address is the one found by looking down. */
  lemma FloorRegion(s: State, pending: set<nat>, x: nat, k: nat, j: nat)
    requires Inv(s, pending) && IsFloor(s.regions.Keys, x, k) && j in s.regions && j <= x < j + s.regions[j].length
    ensures j == k
  {
    assert RegionOk(s, k, pending) && RegionOk(s, j, pending);
    var a, b := Start(k, s.regions[k]), Start(j, s.regions[j]);
    SameTile(s.tiles, s.heap, s.top, a, b, k);
  }

  // ---------------------------------------------------------------------------
  // Steps
  // ---------------------------------------------------------------------------

  /** Taking a free region out of both indexes. */
  lemma TakenInv(s: State, pending: set<nat>, a: nat, groups: map<nat, seq<nat>>)
    requires Inv(s, pending) && a in s.free && GroupsOk(s.free - {a}, groups)
    ensures Inv(s.(free := s.free - {a}, groups := groups), pending + {a}) && a in s.tiles && s.tiles[a] == s.free[a]
  {
    hide Tiling, GroupsOk, HasRegion;
    assert FreeOk(s, a, pending);
    var t := s.(free := s.free - {a}, groups := groups);
    forall b | b in t.free ensures FreeOk(t, b, pending + {a}) {
      assert FreeOk(s, b, pending);
    }
    RetiledOk(s, pending, t, pending + {a});
  }

  /** A pending tile and the pending tile after it become one. */
  lemma JoinedInv(s: State, others: set<nat>, p: nat, a: nat)
    requires Inv(s, others + {a, p}) && p in s.tiles && a in s.tiles && p + s.tiles[p] == a && p != a && a !in others
             && p !in others
    ensures Inv(s.(tiles := (s.tiles - {a})[p := s.tiles[p] + s.tiles[a]]), others + {p})
  {
    hide Tiling, GroupsOk, HasRegion;
    JoinTiling(s.tiles, s.heap, s.top, p, a);
    var t := s.(tiles := (s.tiles - {a})[p := s.tiles[p] + s.tiles[a]]);
    forall b | b in t.free ensures FreeOk(t, b, others + {p}) {
      assert FreeOk(s, b, others + {a, p});
    }
    RetiledOk(s, others + {a, p}, t, others + {p});
  }

  /** A pending tile at the bottom goes back to the heap. */
  lemma DroppedInv(s: State, others: set<nat>)
    requires Inv(s, others + {s.heap}) && s.heap in s.tiles && s.heap !in others
    ensures Inv(s.(tiles := s.tiles - {s.heap}, heap := s.heap + s.tiles[s.heap]), others)
  {
    hide Tiling, GroupsOk, HasRegion;
    DropTiling(s.tiles, s.heap, s.top);
    var t := s.(tiles := s.tiles - {s.heap}, heap := s.heap + s.tiles[s.heap]);
    forall b | b in t.free ensures FreeOk(t, b, others) {
      assert FreeOk(s, b, others + {s.heap});
    }
    RetiledOk(s, others + {s.heap}, t, others);
  }

  /** A pending tile becomes a free region. */
  lemma ListedInv(s: State, others: set<nat>, a: nat, groups: map<nat, seq<nat>>)
    requires Inv(s, others + {a}) && a in s.tiles && a !in others && GroupsOk(s.free[a := s.tiles[a]], groups)
    ensures Inv(s.(free := s.free[a := s.tiles[a]], groups := groups), others) && a !in s.free
  {
    hide Tiling, GroupsOk, HasRegion;
    assert a in s.free ==> FreeOk(s, a, others + {a});
    var t := s.(free := s.free[a := s.tiles[a]], groups := groups);
    forall b | b in t.free ensures FreeOk(t, b, others) {
      assert b != a ==> FreeOk(s, b, others + {a});
    }
    RetiledOk(s, others + {a}, t, others);
  }

  /** A pending tile is cut in two pending ones. */
  lemma CutInv(s: State, a: nat, l: nat)
    requires Inv(s, {a}) && a in s.tiles && 1 <= l < s.tiles[a]
    ensures Inv(s.(tiles := s.tiles[a := l][a + l := s.tiles[a] - l]), {a, a + l}) && a + l !in s.tiles
  {
    hide Tiling, GroupsOk, HasRegion;
    CutTiling(s.tiles, s.heap, s.top, a, l);
    var t := s.(tiles := s.tiles[a := l][a + l := s.tiles[a] - l]);
    forall b | b in t.free ensures FreeOk(t, b, {a, a + l}) {
      assert FreeOk(s, b, {a});
    }
    RetiledOk(s, {a}, t, {a, a + l});
  }

  /** The heap grows down by a pending tile. */
  lemma GrownInv(s: State, l: nat)
    requires Inv(s, {}) && 1 <= l <= s.heap
    ensures Inv(s.(tiles := s.tiles[s.heap - l := l], heap := s.heap - l), {s.heap - l})
  {
    hide Tiling, GroupsOk, HasRegion;
    AddTiling(s.tiles, s.heap, s.top, l);
    var t := s.(tiles := s.tiles[s.heap - l := l], heap := s.heap - l);
    forall b | b in t.free ensures FreeOk(t, b, {s.heap - l}) {
      assert FreeOk(s, b, {});
    }
    RetiledOk(s, {}, t, {s.heap - l});
  }

  /** A pending tile becomes a region with its guard. */
  lemma UsedInv(s: State, a: nat, k: nat, r: Region)
    requires Inv(s, {a}) && a in s.tiles && r.length >= 1 && k == a + Guard(r.stack)
             && s.tiles[a] == r.length + Guard(r.stack)
    ensures k !in s.regions && Inv(s.(regions := s.regions[k := r]), {})
  {
    hide Tiling, GroupsOk;
    if k in s.regions {
      assert RegionOk(s, k, {a});
      SameTile(s.tiles, s.heap, s.top, a, Start(k, s.regions[k]), k);
    }
    UsedTiles(s, a, k, r);
  }

  lemma UsedTiles(s: State, a: nat, k: nat, r: Region)
    requires TilesOk(s, {a}) && a in s.tiles && r.length >= 1 && k == a + Guard(r.stack)
             && s.tiles[a] == r.length + Guard(r.stack) && k !in s.regions
    ensures TilesOk(s.(regions := s.regions[k := r]), {})
  {
    hide StartsOnce;
    var t := s.(regions := s.regions[k := r]);
    assert a in s.free ==> FreeOk(s, a, {a});
    forall j | j in t.regions ensures RegionOk(t, j, {}) {
      assert j != k ==> RegionOk(s, j, {a});
    }
    forall b | b in t.free ensures FreeOk(t, b, {}) {
      assert FreeOk(s, b, {a});
    }
    forall b | b in t.tiles ensures TileOk(t, b, {}) {
      UsedTile(s, a, k, r, b);
    }
    UsedStarts(s, a, k, r);
  }

  lemma UsedTile(s: State, a: nat, k: nat, r: Region, b: nat)
    requires TileOk(s, b, {a}) && k == a + Guard(r.stack) && k !in s.regions
    ensures TileOk(s.(regions := s.regions[k := r]), b, {})
  {
    var t := s.(regions := s.regions[k := r]);
    if b == a {
      assert k in t.regions && Start(k, t.regions[k]) == a;
    } else if b !in s.free {
      var j :| j in s.regions && Start(j, s.regions[j]) == b;
      assert j in t.regions && Start(j, t.regions[j]) == b;
    }
  }

  lemma UsedStarts(s: State, a: nat, k: nat, r: Region)
    requires StartsOnce(s.regions) && k == a + Guard(r.stack) && k !in s.regions
             && forall j :: j in s.regions ==> RegionOk(s, j, {a})
    ensures StartsOnce(s.regions[k := r])
  {
    var t := s.regions[k := r];
    forall i, j | i in t && j in t && Start(i, t[i]) == Start(j, t[j]) ensures i == j {
      assert i != k ==> RegionOk(s, i, {a});
      assert j != k ==> RegionOk(s, j, {a});
    }
  }

  /** A region's tile becomes pending. */
  lemma UnusedInv(s: State, k: nat)
    requires Inv(s, {}) && k in s.regions
    ensures RegionOk(s, k, {}) && Inv(s.(regions := s.regions - {k}), {Start(k, s.regions[k])})
  {
    hide Tiling, GroupsOk, StartsOnce;
    UnusedStarts(s.regions, k);
    assert RegionOk(s, k, {});
    var t, a := s.(regions := s.regions - {k}), Start(k, s.regions[k]);
    forall j | j in t.regions ensures RegionOk(t, j, {a}) {
      assert RegionOk(s, j, {});
    }
    forall b | b in t.free ensures FreeOk(t, b, {a}) {
      assert FreeOk(s, b, {});
    }
    forall b | b in t.tiles ensures TileOk(t, b, {a}) {
      assert TileOk(s, b, {});
      if b !in t.free && b != a {
        var j :| j in s.regions && Start(j, s.regions[j]) == b;
        assert j in t.regions && Start(j, t.regions[j]) == b;
      }
    }
  }

  lemma UnusedStarts(regions: map<nat, Region>, k: nat)
    requires StartsOnce(regions)
    ensures StartsOnce(regions - {k})
    ensures forall j :: k in regions && j in regions && j != k ==> Start(j, regions[j]) != Start(k, regions[k])
  {}

  // ---------------------------------------------------------------------------
  // The allocator
  // ---------------------------------------------------------------------------

  /** The free region that ends at a, if any, together with [a, a + n). */
  ghost predicate Pushed(s: State, t: State, a: nat, n: nat)
  {
    && t.regions == s.regions
    && (forall p :: p in s.free && p + s.free[p] == a ==> PlacedAt(s, t, p, s.free[p] + n))
    && ((forall p :: p in s.free ==> p + s.free[p] != a) ==> PlacedAt(s, t, a, n))
  }

  /** [a, a + n) is now free: part of the heap if it is the lowest tile, and a free region otherwise. */
  ghost predicate PlacedAt(s: State, t: State, a: nat, n: nat)
  {
    if a == s.heap then t.heap == s.heap + n && t.free == s.free - {a}
    else t.heap == s.heap && t.free == s.free[a := n]
  }

  datatype Outcome = NoRegion | Partial | Freed

  class Mmap {
    const top: nat
    const limit: nat
    var heap: nat
    var regions: map<nat, Region>
    var free: map<nat, nat>
    var groups: map<nat, seq<nat>>
    ghost var tiles: Tiles

    ghost function St(): State
      reads this
    {
      State(regions, free, groups, tiles, heap, top)
    }

    /** Regions with their guards and free regions tile [heap, top), and both indexes hold the same free regions. */
    ghost predicate Tiled()
      reads this
    {
      Inv(St(), {}) && top < MODULUS
    }

    /** Tiled, and the heap has not grown below the break address. */
    ghost predicate Valid()
      reads this
    {
      Tiled() && limit <= heap
    }

    /** An empty address space between the break address and the top. */
    constructor (limit: nat, top: nat)
      requires limit <= top < MODULUS
      ensures Valid() && regions == map[] && free == map[] && heap == top && this.limit == limit && this.top == top
    {
      this.limit, this.top, heap := limit, top, top;
      regions, free, groups, tiles := map[], map[], map[], map[];
    }

    /** Takes a free region out of the address tree and its length group. */
    method Pop(a: nat)
      requires GroupsOk(free, groups) && a in free
      modifies this`free, this`groups
      ensures GroupsOk(free, groups) && free == old(free) - {a}
    {
      hide GroupsOk, Except;
      PopGroups(free, groups, a);
      var n := free[a];
      var rest := Except(groups[n], a);
      groups := if rest == [] then groups - {n} else groups[n := rest];
      free := free - {a};
    }

    /** Gives a range back: joins the free region before it, moves the heap up or files a free region. */
    method PushFree(address: nat, length: nat, ghost others: set<nat>)
      requires Inv(St(), others + {address}) && address in tiles && tiles[address] == length && address !in others
      modifies this
      ensures Inv(St(), others) && Pushed(old(St()), St(), address, length) && regions == old(regions)
              && heap >= old(heap)
      ensures forall o :: o in others && o in old(tiles) ==> o in tiles && tiles[o] == old(tiles)[o]
    {
      hide Inv, GroupsOk, IsFloor, PlacedAt;
      ghost var s := St();
      PendingFacts(s, others + {address}, address);
      var a, n := address, length;
      var found, p := Floor(free.Keys, address);
      NoneEndsHere(s, others + {address}, address, found, p);
      if found && p + free[p] == address {
        a := p;
        n := n + free[p];
        PendingFacts(s, others + {address}, p);
        Pop(p);
        TakenInv(s, others + {address}, p, groups);
        assert others + {address} + {p} == others + {address, p};
        JoinedInv(St(), others, p, address);
        tiles := (tiles - {address})[p := n];
      }
      ghost var t := St();
      Place(a, n, others);
      PlacedMerged(s, t, St(), a, n);
    }

    /** Files a range that no free region precedes. */
    method Place(a: nat, n: nat, ghost others: set<nat>)
      requires Inv(St(), others + {a}) && a in tiles && tiles[a] == n && a !in others
      modifies this
      ensures Inv(St(), others) && PlacedAt(old(St()), St(), a, n) && regions == old(regions)
      ensures heap >= old(heap)
              && (forall o :: o in others && o in old(tiles) ==> o in tiles && tiles[o] == old(tiles)[o])
    {
      hide Inv, GroupsOk;
      ghost var t := St();
      PendingFacts(t, others + {a}, a);
      if a == heap {
        DroppedInv(t, others);
        heap := heap + n;
        tiles := tiles - {a};
        assert free == free - {a};
      } else {
        PushGroups(free, groups, a, n);
        groups := groups[n := [a] + if n in groups then groups[n] else []];
        ListedInv(t, others, a, groups);
        free := free[a := n];
      }
    }

    /** The requested length is whole pages, not zero and not too large. */
    static predicate Allowed(length: nat)
    {
      length % PAGE == 0 && 0 < length < LENGTH_LIMIT
    }

    /** Some free region is long enough. */
    ghost predicate Fits(total: nat)
      reads this
    {
      exists b :: b in free && free[b] >= total
    }

    /**
      * Allocates a region at an address of the allocator's choice, with a guard below a stack: the start of a shortest
      * sufficient free region, or else fresh space below the heap. Fails for a length that is not allowed, and when
      * there is neither. The room below the heap is compared with a 64-bit sum: with no sufficient free region, a
      * request that makes it wrap is always granted and takes the heap below the break address, and no other is.
      */
    method Alloc(length: nat, stack: bool) returns (r: Option<nat>)
      requires Valid()
      modifies this
      ensures Tiled() && Extents(regions, free, heap, top)
      ensures Valid() <==>
              !(Allowed(length) && !old(Fits(length + Guard(stack))) && limit + length + Guard(stack) >= MODULUS)
      ensures r == None <==>
              || !(length % 4096 == 0 && 0 < length < 0x8000_0000_0000)
              || (!old(Fits(length + Guard(stack))) && old(heap) < limit + length + Guard(stack) < MODULUS)
      ensures r == None ==> regions == old(regions) && free == old(free) && heap == old(heap)
      ensures r.Some? ==>
              r.value !in old(regions) && regions == old(regions)[r.value := Region(length, stack)]
              && r.value >= Guard(stack)
      ensures r.Some? ==>
                var a, n := r.value - Guard(stack), length + Guard(stack);
                if old(Fits(n))
                then
                  && a in old(free) && old(free)[a] >= n
                  && old(free)[a] in old(groups) && old(groups)[old(free)[a]] != [] && old(groups)[old(free)[a]][0] == a
                  && (forall b :: b in old(free) && old(free)[b] >= n ==> old(free)[b] >= old(free)[a])
                  && heap == old(heap) && free == if old(free)[a] == n then old(free) - {a}
                     else (old(free) - {a})[a + n := old(free)[a] - n]
                else heap == a && a + n == old(heap) && free == old(free)
    {
      hide Inv, GroupsOk, Extents;
      GuardedStacks(St());
      if length % PAGE != 0 {
        return None;
      }
      if length == 0 || length >= LENGTH_LIMIT {
        return None;
      }
      TopBound(St(), {});
      var space := Reserve(length + Guard(stack));
      if space == None {
        return None;
      }
      var key := space.value + Guard(stack);
      UsedInv(St(), space.value, key, Region(length, stack));
      regions := regions[key := Region(length, stack)];
      GuardedStacks(St());
      r := Some(key);
    }

    /** Cuts the space for a request out of a shortest sufficient free region, or else takes it below the heap. */
    method Reserve(total: nat) returns (r: Option<nat>)
      requires Valid() && 1 <= total < LENGTH_LIMIT + GUARD
      modifies this
      ensures regions == old(regions)
      ensures r == None <==> !old(Fits(total)) && old(heap) < (limit + total) % MODULUS
      ensures r == None ==> St() == old(St())
      ensures r.Some? ==> Inv(St(), {r.value}) && r.value in tiles && tiles[r.value] == total
      ensures r.Some? ==>
                var a := r.value;
                if old(Fits(total))
                then
                  && a in old(free) && old(free)[a] >= total
                  && old(free)[a] in old(groups) && old(groups)[old(free)[a]] != [] && old(groups)[old(free)[a]][0] == a
                  && (forall b :: b in old(free) && old(free)[b] >= total ==> old(free)[b] >= old(free)[a])
                  && heap == old(heap) && free == if old(free)[a] == total then old(free) - {a}
                     else (old(free) - {a})[a + total := old(free)[a] - total]
                else heap == a && a + total == old(heap) && free == old(free)
    {
      hide Inv, GroupsOk;
      ghost var s := St();
      TopBound(s, {});
      var found, n := Ceiling(groups.Keys, total);
      FitExists(s, total, found, n);
      if found {
        GroupHead(s, n);
        var a := groups[n][0];
        TakeFit(a, total);
        return Some(a);
      }
      if (limit + total) % MODULUS > heap {
        return None;
      }
      GrownInv(s, total);
      heap := heap - total;
      tiles := tiles[heap := total];
      r := Some(heap);
    }

    /** Takes the given length off the start of a free region. */
    method TakeFit(a: nat, total: nat)
      requires Inv(St(), {}) && a in free && 1 <= total <= free[a]
      modifies this
      ensures Inv(St(), {a}) && a in tiles && tiles[a] == total && regions == old(regions) && heap == old(heap)
      ensures free == if old(free)[a] == total then old(free) - {a}
              else (old(free) - {a})[a + total := old(free)[a] - total]
    {
      hide Inv, GroupsOk;
      ghost var s := St();
      PendingFacts(s, {}, a);
      var n := free[a];
      Pop(a);
      TakenInv(s, {}, a, groups);
      assert {} + {a} == {a};
      if n > total {
        ghost var t := St();
        CutInv(t, a, total);
        tiles := tiles[a := total][a + total := n - total];
        CutNeighbour(St(), a, a + total);
        assert {a} + {a + total} == {a, a + total};
        PushFree(a + total, n - total, {a});
      }
    }

    /**
      * Frees the region at an address; a length of zero stands for the rest of the region. No region there is reported,
      * any other range than a whole region is refused (a panic).
      */
    method Dealloc(address: nat, length: nat) returns (outcome: Outcome)
      requires Tiled()
      modifies this
      ensures Tiled() && Extents(regions, free, heap, top) && (old(Valid()) ==> Valid())
      ensures outcome == NoRegion <==> forall k :: k in old(regions) ==> !(k <= address < k + old(regions)[k].length)
      ensures outcome == Freed <==> address in old(regions) && (length == 0 || length == old(regions)[address].length)
      ensures outcome == Freed ==> regions == old(regions) - {address} && heap >= old(heap) && address in old(regions)
      ensures outcome == Freed ==>
                var g := Guard(old(regions)[address].stack);
                && g <= address
                && Pushed(old(St()).(regions := old(regions) - {address}), St(), address - g,
                   old(regions)[address].length + g)
      ensures outcome != Freed ==> regions == old(regions) && free == old(free) && heap == old(heap)
    {
      hide Inv, Pushed, Extents;
      ghost var s := St();
      GuardedStacks(s);
      var found, k := Floor(regions.Keys, address);
      FoundRegion(s, address, found, k);
      if !found || k + regions[k].length <= address {
        return NoRegion;
      }
      var n := if length == 0 then k + regions[k].length - address else length;
      if k != address || regions[k].length != n {
        return Partial;
      }
      UnusedInv(s, k);
      var region := regions[k];
      var g := Guard(region.stack);
      regions := regions - {k};
      assert {} + {k - g} == {k - g};
      PushFree(k - g, region.length + g, {});
      GuardedStacks(St());
      outcome := Freed;
    }

    /** The region that holds an address. */
    method Lookup(address: nat) returns (r: Option<nat>)
      requires Tiled()
      ensures r.Some? ==> r.value in regions && r.value <= address < r.value + regions[r.value].length
      ensures r == None ==> forall k :: k in regions ==> !(k <= address < k + regions[k].length)
    {
      hide Inv;
      var found, k := Floor(regions.Keys, address);
      FoundRegion(St(), address, found, k);
      if !found || k + regions[k].length <= address {
        return None;
      }
      r := Some(k);
    }
  }

  /** Whether the free region at a was taken out first makes no difference. */
  lemma PlacedMerged(s: State, t: State, u: State, a: nat, n: nat)
    requires PlacedAt(t, u, a, n) && t.heap == s.heap && (t.free == s.free || t.free == s.free - {a})
    ensures PlacedAt(s, u, a, n)
  {}

  /** No region but the one found by looking down can hold an address. */
  lemma FoundRegion(s: State, x: nat, found: bool, k: nat)
    requires Inv(s, {}) && (found ==> IsFloor(s.regions.Keys, x, k))
             && (!found ==> forall j :: j in s.regions.Keys ==> j > x)
    ensures found ==> k in s.regions && k <= x && s.regions[k].length >= 1
    ensures forall j :: j in s.regions && j <= x < j + s.regions[j].length ==> found && j == k
    ensures x in s.regions ==> found && k == x
  {
    hide Tiling, GroupsOk;
    if found {
      assert RegionOk(s, k, {});
    }
    forall j | j in s.regions && j <= x < j + s.regions[j].length ensures found && j == k {
      assert j in s.regions.Keys;
      if found {
        FloorRegion(s, {}, x, k, j);
      }
    }
    assert x in s.regions ==> x in s.regions.Keys;
  }

  /** The pending tile before a pending tile is the only one that ends there. */
  lemma CutNeighbour(s: State, a: nat, b: nat)
    requires Inv(s, {a, b}) && a in s.tiles && b == a + s.tiles[a] && b in s.tiles
    ensures b != s.heap && forall p :: p in s.free ==> p + s.free[p] != b
  {
    hide GroupsOk;
    assert Inside(s.tiles, a, s.heap, s.top);
    forall p | p in s.free ensures p + s.free[p] != b {
      assert FreeOk(s, p, {a, b});
      if p + s.free[p] == b {
        SameEnd(s.tiles, s.heap, s.top, a, p);
      }
    }
  }

  lemma TopBound(s: State, pending: set<nat>)
    requires Inv(s, pending)
    ensures s.heap <= s.top
  {
    hide GroupsOk, TilesOk;
  }

  /**
    * The module loader's map as the kernel sets it up, and a request of its whole window: the sum with the break
    * address wraps to zero, the request is granted, and the heap lies below the break address.
    */
  method ModuleRequestWraps() returns (r: Option<nat>, heap: nat, limit: nat)
    ensures limit == 0xffff_ffff_cc00_0000 && (limit + 0x3400_0000) % MODULUS == 0
    ensures r == Some(heap) && heap == 0xffff_ffff_cbff_e000 < limit
  {
    var m := new Mmap(0xffff_ffff_cc00_0000, 0xffff_ffff_ffff_e000);
    r := m.Alloc(0x3400_0000, false);
    heap, limit := m.heap, m.limit;
  }

  /** What regions and free regions take up, said in addresses: a stack's guard belongs to it. */
  ghost predicate Extents(regions: map<nat, Region>, free: map<nat, nat>, heap: nat, top: nat)
  {
    && (forall k :: k in regions ==> heap <= k && k + regions[k].length <= top)
    && (forall k :: k in regions && regions[k].stack ==> heap + 16384 <= k)
    && (forall j, k :: j in regions && k in regions && j < k ==> j + regions[j].length <= k)
    && (forall j, k :: j in regions && k in regions && j < k && regions[k].stack ==> j + regions[j].length + 16384 <= k)
    && (forall a :: a in free ==> heap <= a && a + free[a] <= top)
    && (forall a, k :: a in free && k in regions && a >= k ==> a >= k + regions[k].length)
    && (forall a, k :: a in free && k in regions && a < k ==> a + free[a] <= k)
    && (forall a, k :: a in free && k in regions && a < k && regions[k].stack ==> a + free[a] + 16384 <= k)
    && forall a, b :: a in free && b in free && a < b ==> a + free[a] <= b
  }

  /** No two regions or free regions overlap, and nothing meets the 16 KiB below a stack. */
  lemma GuardedStacks(s: State)
    requires Inv(s, {})
    ensures Extents(s.regions, s.free, s.heap, s.top)
  {
    hide Inv;
    forall k | k in s.regions
      ensures s.heap <= k && k + s.regions[k].length <= s.top && (s.regions[k].stack ==> s.heap + 16384 <= k) {
      RegionInside(s, k);
    }
    forall j, k | j in s.regions && k in s.regions && j < k
      ensures j + s.regions[j].length <= k && (s.regions[k].stack ==> j + s.regions[j].length + 16384 <= k) {
      RegionsApart(s, j, k);
    }
    forall a | a in s.free ensures s.heap <= a && a + s.free[a] <= s.top {
      FreeInside(s, a);
    }
    forall a, k | a in s.free && k in s.regions
      ensures a >= k ==> a >= k + s.regions[k].length
      ensures a < k ==> a + s.free[a] <= k
      ensures a < k && s.regions[k].stack ==> a + s.free[a] + 16384 <= k {
      FreeApart(s, a, k);
    }
    forall a, b | a in s.free && b in s.free && a < b ensures a + s.free[a] <= b {
      FreesApart(s, a, b);
    }
  }

  lemma RegionInside(s: State, k: nat)
    requires Inv(s, {}) && k in s.regions
    ensures s.heap + Guard(s.regions[k].stack) <= k && k + s.regions[k].length <= s.top
  {
    hide GroupsOk, Tiling;
    assert RegionOk(s, k, {});
    TileInside(s.tiles, s.heap, s.top, Start(k, s.regions[k]));
  }

  lemma RegionsApart(s: State, j: nat, k: nat)
    requires Inv(s, {}) && j in s.regions && k in s.regions && j < k
    ensures j + s.regions[j].length + Guard(s.regions[k].stack) <= k
  {
    hide GroupsOk, Tiling;
    assert RegionOk(s, j, {}) && RegionOk(s, k, {});
    TilesApart(s.tiles, s.heap, s.top, Start(j, s.regions[j]), Start(k, s.regions[k]));
  }

  lemma FreeInside(s: State, a: nat)
    requires Inv(s, {}) && a in s.free
    ensures s.heap <= a && a + s.free[a] <= s.top
  {
    hide GroupsOk, Tiling;
    assert FreeOk(s, a, {});
    TileInside(s.tiles, s.heap, s.top, a);
  }

  lemma FreeApart(s: State, a: nat, k: nat)
    requires Inv(s, {}) && a in s.free && k in s.regions
    ensures if a < k then a + s.free[a] + Guard(s.regions[k].stack) <= k else a >= k + s.regions[k].length
  {
    hide GroupsOk, Tiling;
    assert FreeOk(s, a, {}) && RegionOk(s, k, {});
    TilesApart(s.tiles, s.heap, s.top, a, Start(k, s.regions[k]));
  }

  lemma FreesApart(s: State, a: nat, b: nat)
    requires Inv(s, {}) && a in s.free && b in s.free && a < b
    ensures a + s.free[a] <= b
  {
    hide GroupsOk, Tiling;
    assert FreeOk(s, a, {}) && FreeOk(s, b, {});
    TilesApart(s.tiles, s.heap, s.top, a, b);
  }

  /** Looking up an address in the 16 KiB below a stack finds nothing. */
  method LookupInGuard(m: Mmap, k: nat, x: nat) returns (r: Option<nat>)
    requires m.Tiled() && k in m.regions && m.regions[k].stack && k - 16384 <= x < k
    ensures r == None
  {
    hide Inv;
    GuardedStacks(m.St());
    r := m.Lookup(x);
  }

  /** A region below a stack keeps clear of its guard. */
  method RegionBelowStack() returns (first: Option<nat>, second: Option<nat>)
    ensures first == Some(0x7fff_c000) && second == Some(0x7fff_7000)
  {
    var m := new Mmap(0x1000_0000, 0x8000_0000);
    first := m.Alloc(0x4000, true);
    second := m.Alloc(0x1000, false);
  }

  /** Looking up a free region of sufficient length. */
  lemma GroupHead(s: State, n: nat)
    requires Inv(s, {}) && n in s.groups
    ensures s.groups[n] != [] && s.groups[n][0] in s.free && s.free[s.groups[n][0]] == n
  {
    hide Tiling, TilesOk;
    assert GroupOk(s.free, s.groups[n], n);
  }

  lemma FitExists(s: State, length: nat, found: bool, n: nat)
    requires Inv(s, {}) && (found ==> IsCeiling(s.groups.Keys, length, n))
             && (!found ==> forall j :: j in s.groups.Keys ==> j < length)
    ensures !found ==> forall a :: a in s.free ==> s.free[a] < length
    ensures found ==> n in s.groups && n >= length && forall a :: a in s.free && s.free[a] >= length ==> s.free[a] >= n
  {
    hide Tiling, TilesOk, GroupOk;
    forall a | a in s.free ensures s.free[a] in s.groups.Keys {
    }
  }

  lemma PendingFacts(s: State, pending: set<nat>, a: nat)
    requires Inv(s, pending)
    ensures GroupsOk(s.free, s.groups) && (a in pending ==> a !in s.free)
            && (a in s.free ==> a !in pending && a in s.tiles && s.tiles[a] == s.free[a])
  {
    hide Tiling, GroupsOk;
    assert a in s.free ==> FreeOk(s, a, pending);
  }

  /** Looking down from an address finds the free region that ends there, if there is one. */
  lemma NoneEndsHere(s: State, pending: set<nat>, a: nat, found: bool, p: nat)
    requires Inv(s, pending) && a !in s.free && (found ==> IsFloor(s.free.Keys, a, p))
             && (!found ==> forall j :: j in s.free.Keys ==> j > a)
    ensures forall q :: q in s.free && q + s.free[q] == a ==> found && q == p
  {
    hide GroupsOk;
    forall q | q in s.free && q + s.free[q] == a ensures found && q == p {
      assert FreeOk(s, q, pending);
      assert q in s.free.Keys;
      if found {
        assert FreeOk(s, p, pending);
        assert Apart(s.tiles, q, p);
        assert Inside(s.tiles, q, s.heap, s.top);
      }
    }
  }
}
