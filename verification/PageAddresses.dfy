/** Mapping and translating by addresses: what the page tables mean in bytes. */
module PageAddresses {
  import opened Arithmetic
  import opened PageTables
  import opened PageMap

  /** The bytes of a page that spans n levels. */
  function PageSize(n: nat): (r: nat)
    ensures r >= 4096
  {
    if n <= 1 then 4096 else if n == 2 then 0x20_0000 else 0x4000_0000
  }

  /** The table indices in bits 39 to 47, 30 to 38, 21 to 29 and 12 to 20 of an address. */
  function Indices(va: nat): (v: seq<nat>)
    ensures IsPath(v)
  {
    [va / 0x80_0000_0000 % 512, va / 0x4000_0000 % 512, va / 0x20_0000 % 512, va / 0x1000 % 512]
  }

  /** The address without the bits that no table looks at. */
  function Low48(va: nat): (r: nat)
    ensures r < 0x1_0000_0000_0000
  {
    va % 0x1_0000_0000_0000
  }

  /** What an address translates to, or 0. */
  ghost function Translation(s: State, va: nat): nat
  {
    Physical(Walk(s, s.top, Indices(va)), Indices(va), va % 4096)
  }

  // ---------------------------------------------------------------------------
  // Addresses and indices
  // ---------------------------------------------------------------------------

  /** The units of each page size, one from the other. */
  lemma Units(va: nat)
    ensures va / 0x20_0000 == va / 0x1000 / 512 && va / 0x4000_0000 == va / 0x20_0000 / 512
    ensures va / 0x80_0000_0000 == va / 0x4000_0000 / 512
    ensures va % 0x20_0000 == va / 0x1000 % 512 * 4096 + va % 4096
    ensures va % 0x4000_0000 == va / 0x20_0000 % 512 * 0x20_0000 + va % 0x20_0000
  {
    DivDiv(va, 0x1000, 512);
    DivDiv(va, 0x20_0000, 512);
    DivDiv(va, 0x4000_0000, 512);
    ModMod(va, 0x1000, 512);
    ModMod(va, 0x20_0000, 512);
  }

  lemma Low48Units(va: nat)
    ensures Low48(va) / 0x1000 == va / 0x1000 % 0x10_0000_0000
    ensures Low48(va) / 0x20_0000 == va / 0x20_0000 % 0x800_0000
    ensures Low48(va) / 0x4000_0000 == va / 0x4000_0000 % 0x4_0000
    ensures va % 4096 == 0 ==> va / 4096 % 0x10_0000_0000 * 4096 == Low48(va)
  {
    ModMod(va, 0x1000, 0x10_0000_0000);
    ModMod(va, 0x20_0000, 0x800_0000);
    ModMod(va, 0x4000_0000, 0x4_0000);
  }

  /** The indices are the digits of the address in base 512. */
  lemma Digits(va: nat)
    ensures var v, a := Indices(va), Low48(va);
            && a / 0x4000_0000 == v[0] * 512 + v[1]
            && a / 0x20_0000 == a / 0x4000_0000 * 512 + v[2]
            && a / 0x1000 == a / 0x20_0000 * 512 + v[3]
  {
    hide Low48;
    Low48Units(va);
    Units(va);
    ModMod(va / 0x4000_0000, 512, 512);
    ModMod(va / 0x20_0000, 512, 0x4_0000);
    ModMod(va / 0x1000, 512, 0x800_0000);
  }

  /** Two addresses share the first indices exactly when they lie in the same page of n levels. */
  lemma SamePage(va: nat, vb: nat, n: nat)
    requires 1 <= n <= 3
    ensures Prefix(Indices(vb)[..LEVELS + 1 - n], Indices(va)) <==> Low48(va) / PageSize(n) == Low48(vb) / PageSize(n)
  {
    hide Low48, Indices;
    Digits(va);
    Digits(vb);
    var v, w, a, b := Indices(va), Indices(vb), Low48(va), Low48(vb);
    SamePair(v[0], w[0], v[1], w[1]);
    SamePair(a / 0x4000_0000, b / 0x4000_0000, v[2], w[2]);
    SamePair(a / 0x20_0000, b / 0x20_0000, v[3], w[3]);
    SameStarts(v, w, LEVELS + 1 - n);
  }

  lemma SamePair(h: nat, k: nat, d: nat, e: nat)
    requires d < 512 && e < 512
    ensures h * 512 + d == k * 512 + e <==> h == k && d == e
  {}

  lemma SameStarts(v: seq<nat>, w: seq<nat>, k: nat)
    requires |v| == |w| == 4 && 2 <= k <= 4
    ensures Prefix(w[..k], v) <==>
            v[0] == w[0] && v[1] == w[1] && (k > 2 ==> v[2] == w[2]) && (k > 3 ==> v[3] == w[3])
  {
    if Prefix(w[..k], v) {
      assert forall i :: 0 <= i < k ==> v[..k][i] == w[..k][i];
    }
  }

  /** The indices below a page's level and the offset are the address within the page. */
  lemma WithinPage(va: nat, n: nat)
    requires 1 <= n <= 3
    ensures Offset(Indices(va)[LEVELS + 1 - n..]) * 4096 + va % 4096 == va % PageSize(n)
    ensures StartsPage(Indices(va), n) && va % 4096 == 0 <==> va % PageSize(n) == 0
  {
    var v := Indices(va);
    Units(va);
    assert Offset([]) == 0;
    assert v[4..] == [] && v[3..] == [v[3]] && v[2..] == [v[2], v[3]];
    assert [v[3]][..0] == [] && [v[2], v[3]][..1] == [v[2]] && [v[2]][..0] == [];
    assert Offset([v[3]]) == v[3] && Offset([v[2]]) == v[2] && Offset([v[2], v[3]]) == 512 * v[2] + v[3];
  }

  lemma FrameAligned(physical: nat, n: nat)
    requires 1 <= n <= 3
    ensures physical / 4096 % Span(n) == 0 && physical % 4096 == 0 <==> physical % PageSize(n) == 0
    ensures physical % 4096 == 0 ==> physical / 4096 % 0x10_0000_0000 * 4096 == Low48(physical)
  {
    hide Low48;
    assert Span(1) == 1 && Span(2) == 512 && Span(3) == 0x4_0000;
    hide Span;
    ModMod(physical, 4096, 512);
    ModMod(physical, 4096, 0x4_0000);
    Low48Units(physical);
  }

  // ---------------------------------------------------------------------------
  // Operations by address
  // ---------------------------------------------------------------------------

  /** What a page put into the tables means for one address. */
  lemma PutTranslation(s: State, t: State, physical: nat, virtual: nat, n: nat, leaf: Entry, va: nat)
    requires 1 <= n <= 3 && leaf.Leaf? && leaf.frame == physical / 4096 % 0x10_0000_0000 && physical % 4096 == 0
    requires ViewPut(s, t, Indices(virtual)[..LEVELS + 1 - n], Page(leaf, n))
    ensures Translation(t, va) ==
            if Low48(va) / PageSize(n) == Low48(virtual) / PageSize(n) then Low48(physical) + va % PageSize(n)
            else Translation(s, va)
  {
    hide Walk, Offset, Indices, Low48, PageSize, Span;
    SamePage(va, virtual, n);
    WithinPage(va, n);
    FrameAligned(physical, n);
    assert |Indices(va)| == LEVELS;
  }

  /** What taking a page out of the tables means for one address. */
  lemma ClearedTranslation(s: State, t: State, virtual: nat, n: nat, va: nat)
    requires 1 <= n <= 3 && ViewPut(s, t, Indices(virtual)[..LEVELS + 1 - n], Nothing)
    ensures Translation(t, va) ==
            if Low48(va) / PageSize(n) == Low48(virtual) / PageSize(n) then 0 else Translation(s, va)
  {
    hide Walk, Offset, Indices, Low48, PageSize;
    SamePage(va, virtual, n);
    assert |Indices(va)| == LEVELS;
  }

  /**
   * Maps a page of 4 KiB, 2 MiB or 1 GiB. Both addresses must be multiples of its size and nothing present may be
   * mapped there. Then exactly the addresses in the page translate into the frame, each at its own distance from the
   * start, and every other address translates as before. An entry of zero maps nothing and spoils a counter.
   */
  method MapPage(m: Pagemap, physical: nat, virtual: nat, flags: nat, present: bool, n: nat) returns (ok: bool)
    requires m.Valid() && 1 <= n <= 3
    requires var f := Walk(m.St(), m.top, Indices(virtual)); f == Nothing || f.level <= n
    modifies m
    ensures ok <==> physical % PageSize(n) == 0 && virtual % PageSize(n) == 0
                    && Clear(old(m.St()), Indices(virtual)[..LEVELS + 1 - n], n)
    ensures ok ==>
              var zero := n == 1 && Low48(physical) == 0 && flags == 0 && !present;
              && (m.Valid() <==> !zero)
              && Walk(m.St(), m.top, Indices(virtual)) ==
                 (if zero then Nothing else Page(Leaf(physical / 4096 % 0x10_0000_0000, flags, present, n > 1), n))
              && forall va: nat ::
                   Translation(m.St(), va) ==
                   if Low48(va) / PageSize(n) != Low48(virtual) / PageSize(n) then Translation(old(m.St()), va)
                   else if zero then 0 else Low48(physical) + va % PageSize(n)
  {
    hide Inv, Walk, ViewPut, Clear, Offset, Indices, Low48, PageSize, Span, StartsPage, Translation, Extends;
    WithinPage(virtual, n);
    FrameAligned(physical, n);
    if physical % PAGE != 0 || virtual % PAGE != 0 {
      return false;
    }
    ghost var s := m.St();
    ok := m.Map(physical / PAGE, flags, present, Indices(virtual), n);
    if ok {
      ghost var zero := n == 1 && Low48(physical) == 0 && flags == 0 && !present;
      ghost var leaf := Leaf(physical / 4096 % 0x10_0000_0000, flags, present, n > 1);
      ghost var f := if zero then Nothing else Page(leaf, n);
      ViewPutAt(s, m.St(), Indices(virtual)[..LEVELS + 1 - n], f, Indices(virtual));
      forall va: nat
        ensures Translation(m.St(), va) ==
                if Low48(va) / PageSize(n) != Low48(virtual) / PageSize(n) then Translation(s, va)
                else if zero then 0 else Low48(physical) + va % PageSize(n) {
        if zero {
          ClearedTranslation(s, m.St(), virtual, n, va);
        } else {
          PutTranslation(s, m.St(), physical, virtual, n, leaf, va);
        }
      }
    }
  }

  /** Translates an address. */
  method TranslateAddress(m: Pagemap, va: nat) returns (address: nat)
    requires m.Valid()
    ensures address == Translation(m.St(), va)
  {
    hide Inv, Walk, Offset, Indices;
    address := m.Translate(Indices(va), va % PAGE);
  }

  /**
   * Unmaps the page that starts at an address and returns its entry. Exactly the addresses of the page lose their
   * translation. Nothing happens at an address that is not mapped or does not start a page.
   */
  method UnmapPage(m: Pagemap, virtual: nat) returns (e: Entry)
    requires m.Valid()
    modifies m
    ensures m.Valid()
    ensures var f := Walk(old(m.St()), m.top, Indices(virtual));
            if f == Nothing || !(1 <= f.level <= 3) || virtual % PageSize(f.level) != 0
            then e == Empty && m.St() == old(m.St())
            else
              && e == f.leaf
              && forall va: nat :: Translation(m.St(), va) ==
                   if Low48(va) / PageSize(f.level) == Low48(virtual) / PageSize(f.level) then 0
                   else Translation(old(m.St()), va)
  {
    hide Inv, Walk, ViewPut, Offset, Indices, Low48, PageSize, StartsPage, Translation, Extends;
    ghost var s := m.St();
    ghost var f := Walk(s, m.top, Indices(virtual));
    FoundLevel(s, Indices(virtual));
    if f != Nothing {
      WithinPage(virtual, f.level);
    }
    if virtual % PAGE != 0 {
      return Empty;
    }
    e := m.Unmap(Indices(virtual));
    if e != Empty {
      forall va: nat ensures Translation(m.St(), va) ==
        if Low48(va) / PageSize(f.level) == Low48(virtual) / PageSize(f.level) then 0 else Translation(s, va) {
        ClearedTranslation(s, m.St(), virtual, f.level, va);
      }
    }
  }

  /** Pages span one to three levels. */
  lemma FoundLevel(s: State, v: seq<nat>)
    requires Inv(s, s.top, {}) && IsPath(v)
    ensures var f := Walk(s, s.top, v); f != Nothing ==> 1 <= f.level <= 3 && f.leaf.Leaf?
  {
    hide NonEmpty;
    TopFacts(s);
    var e := s.mem[s.top][v[0]];
    if e.Node? {
      WalkLevel(s, e.page, v[1..]);
    }
  }

  /**
   * What mapping a page is for: any address in it translates to the frame's address at the same distance, and the
   * entry given back by unmapping carries the flags and the present bit.
   */
  method MapThenTranslate(m: Pagemap, physical: nat, virtual: nat, flags: nat, present: bool, n: nat, va: nat)
    returns (ok: bool, address: nat, e: Entry)
    requires m.Valid() && 1 <= n <= 3 && (n > 1 || physical % 0x1_0000_0000_0000 != 0 || flags != 0 || present)
    requires Walk(m.St(), m.top, Indices(virtual)) == Nothing || Walk(m.St(), m.top, Indices(virtual)).level <= n
    modifies m
    ensures var size := if n == 1 then 4096 else if n == 2 then 0x20_0000 else 0x4000_0000;
            ok && virtual <= va < virtual + size ==> address == physical % 0x1_0000_0000_0000 + (va - virtual)
    ensures ok ==> e == Leaf(physical / 4096 % 0x10_0000_0000, flags, present, n > 1)
  {
    hide Inv, Walk, Indices, Clear, Translation;
    address, e := 0, Empty;
    ok := MapPage(m, physical, virtual, flags, present, n);
    if ok {
      address := TranslateAddress(m, va);
      if virtual <= va < virtual + PageSize(n) {
        SameStart(virtual, va, n);
      }
      e := UnmapPage(m, virtual);
    }
  }

  lemma SameStart(virtual: nat, va: nat, n: nat)
    requires 1 <= n <= 3 && virtual % PageSize(n) == 0 && virtual <= va < virtual + PageSize(n)
    ensures Low48(va) / PageSize(n) == Low48(virtual) / PageSize(n) && va % PageSize(n) == va - virtual
  {
    hide Low48;
    DivModUnique(va, PageSize(n), virtual / PageSize(n), va - virtual);
    Low48Units(va);
    Low48Units(virtual);
  }

  /** The second 4 KiB of an empty map, mapped to frame 5. */
  method SecondPage() returns (address: nat)
    ensures address == 0x5234
  {
    hide Inv, Walk;
    var m := new Pagemap(1);
    ghost var s, u := m.St(), Indices(0x1000)[..4];
    assert Clear(s, u, 1) by {
      assert forall w: seq<nat> :: |w| == LEVELS ==> Walk(s, s.top, w) == Nothing;
    }
    var _ := MapPage(m, 0x5000, 0x1000, 0, true, 1);
    address := TranslateAddress(m, 0x1234);
  }
}
