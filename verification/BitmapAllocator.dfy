/** The bitmap allocator on disk: one cached block per level, written through, and a cursor into the top level. */
module BitmapAllocator {
  import opened Arithmetic
  import opened Bits
  import opened BitmapLevels

  /** Words per disk block. */
  const PER_BLOCK := 512
  /** The index of no block. */
  const NONE := 0xffff_ffff_ffff_ffff

  /** The disk, the cached block of each level with its contents, and the words all of these stand for. */
  datatype Store = Store(disk: map<nat, seq<nat>>, cached: seq<nat>, data: seq<seq<nat>>, words: seq<seq<nat>>)

  function Place(offset: seq<nat>, l: nat, k: nat): nat
    requires l < |offset|
  {
    offset[l] + k / PER_BLOCK
  }

  /** The levels lie on different blocks. */
  ghost predicate LevelsApart(offset: seq<nat>, w: seq<seq<nat>>)
  {
    && |offset| == |w| == LEVELS
    && (forall l: nat, k: nat :: l < LEVELS && k < |w[l]| ==> Place(offset, l, k) < NONE)
    && forall l: nat, k: nat, m: nat, x: nat :: l < LEVELS && k < |w[l]| && m < LEVELS && x < |w[m]| && l != m ==>
       Place(offset, l, k) != Place(offset, m, x)
  }

  ghost predicate WordOnDisk(disk: map<nat, seq<nat>>, b: nat, k: nat, v: nat)
  {
    b in disk && |disk[b]| == PER_BLOCK && disk[b][k % PER_BLOCK] == v
  }

  /** Every word is on the disk. */
  ghost predicate OnDisk(disk: map<nat, seq<nat>>, offset: seq<nat>, w: seq<seq<nat>>)
    requires |offset| == |w| == LEVELS
  {
    forall l: nat, k: nat :: l < LEVELS && k < |w[l]| ==> WordOnDisk(disk, Place(offset, l, k), k, w[l][k])
  }

  ghost predicate InLevel(offset: seq<nat>, w: seq<seq<nat>>, l: nat, b: nat)
    requires |offset| == |w| == LEVELS && l < LEVELS
  {
    exists k: nat :: k < |w[l]| && b == Place(offset, l, k)
  }

  /** A level's cache is empty or equals one of the level's blocks on the disk. */
  ghost predicate CacheOk(s: Store, offset: seq<nat>, l: nat)
    requires |offset| == |s.words| == |s.cached| == |s.data| == LEVELS && l < LEVELS
  {
    s.cached[l] == NONE
      || (s.cached[l] in s.disk && s.data[l] == s.disk[s.cached[l]] && InLevel(offset, s.words, l, s.cached[l]))
  }

  ghost predicate Coherent(s: Store, offset: seq<nat>)
  {
    && LevelsApart(offset, s.words) && |s.cached| == |s.data| == LEVELS
    && OnDisk(s.disk, offset, s.words) && forall l: nat :: l < LEVELS ==> CacheOk(s, offset, l)
  }

  /** Block b of the disk belongs to no level. */
  ghost predicate Outside(offset: seq<nat>, w: seq<seq<nat>>, b: nat)
    requires |offset| == |w| == LEVELS
  {
    forall l: nat, k: nat :: l < LEVELS && k < |w[l]| ==> Place(offset, l, k) != b
  }

  /** The levels keep their lengths, and the rest of the disk is untouched. */
  ghost predicate Framed(offset: seq<nat>, d: map<nat, seq<nat>>, w: seq<seq<nat>>, e: map<nat, seq<nat>>,
    u: seq<seq<nat>>)
  {
    && |offset| == |w| == |u| == LEVELS && (forall l: nat :: l < LEVELS ==> |u[l]| == |w[l]|)
    && forall b: nat :: Outside(offset, w, b) ==> (b in d <==> b in e) && (b in d && b in e ==> e[b] == d[b])
  }

  lemma FramedSelf(offset: seq<nat>, d: map<nat, seq<nat>>, w: seq<seq<nat>>)
    requires |offset| == |w| == LEVELS
    ensures Framed(offset, d, w, d, w)
  {}

  lemma FramedTwice(offset: seq<nat>, d: map<nat, seq<nat>>, w: seq<seq<nat>>, e: map<nat, seq<nat>>,
    u: seq<seq<nat>>, f: map<nat, seq<nat>>, v: seq<seq<nat>>)
    requires Framed(offset, d, w, e, u) && Framed(offset, e, u, f, v)
    ensures Framed(offset, d, w, f, v)
  {
    hide Place;
    forall b: nat | Outside(offset, w, b) ensures (b in d <==> b in f) && (b in d && b in f ==> f[b] == d[b]) {
      assert Outside(offset, u, b);
    }
  }

  lemma FramedWrite(offset: seq<nat>, d: map<nat, seq<nat>>, w: seq<seq<nat>>, l: nat, k: nat, v: nat, row: seq<nat>)
    requires |offset| == |w| == LEVELS && l < LEVELS && k < |w[l]|
    ensures Framed(offset, d, w, d[Place(offset, l, k) := row], Put(w, l, k, v))
  {
    hide Place;
  }

  ghost predicate ZeroBefore(w: seq<seq<nat>>, top: nat)
    requires |w| == LEVELS
  {
    forall k: nat :: k < top ==> !NonZero(w, TOP, k)
  }

  /** The cursor is at the first top word that is not zero, or at the end. */
  ghost predicate TopOk(w: seq<seq<nat>>, top: nat)
    requires |w| == LEVELS
  {
    top <= |w[TOP]| && ZeroBefore(w, top) && (top < |w[TOP]| ==> NonZero(w, TOP, top))
  }

  lemma FetchKeeps(s: Store, offset: seq<nat>, l: nat, k: nat)
    requires Coherent(s, offset) && l < LEVELS && k < |s.words[l]|
    ensures var b := Place(offset, l, k);
            && b in s.disk && |s.disk[b]| == PER_BLOCK && s.disk[b][k % PER_BLOCK] == s.words[l][k]
            && Coherent(s.(cached := s.cached[l := b], data := s.data[l := s.disk[b]]), offset)
            && (s.cached[l] == b ==> s.data[l] == s.disk[b])
  {
    hide Place;
    var b := Place(offset, l, k);
    var t := s.(cached := s.cached[l := b], data := s.data[l := s.disk[b]]);
    assert WordOnDisk(s.disk, b, k, s.words[l][k]);
    assert b < NONE;
    assert CacheOk(s, offset, l);
    forall m: nat | m < LEVELS ensures CacheOk(t, offset, m) {
      assert CacheOk(s, offset, m);
    }
  }

  /** Writing a word through to the disk keeps every level on the disk and every cache right. */
  lemma StoreKeeps(s: Store, offset: seq<nat>, l: nat, k: nat, v: nat)
    requires Coherent(s, offset) && l < LEVELS && k < |s.words[l]| && s.cached[l] == Place(offset, l, k)
    ensures |s.data[l]| == PER_BLOCK
    ensures var row: seq<nat> := s.data[l][k % PER_BLOCK := v];
            Coherent(Store(s.disk[s.cached[l] := row], s.cached, s.data[l := row], Put(s.words, l, k, v)), offset)
  {
    hide Place;
    FetchKeeps(s, offset, l, k);
    var row: seq<nat> := s.data[l][k % PER_BLOCK := v];
    var t := Store(s.disk[s.cached[l] := row], s.cached, s.data[l := row], Put(s.words, l, k, v));
    forall m: nat, x: nat | m < LEVELS && x < |t.words[m]|
      ensures WordOnDisk(t.disk, Place(offset, m, x), x, t.words[m][x]) {
      StoredWord(s, offset, l, k, v, m, x);
    }
    forall m: nat | m < LEVELS ensures CacheOk(t, offset, m) {
      StoredCache(s, offset, l, k, v, m);
    }
  }

  lemma StoredWord(s: Store, offset: seq<nat>, l: nat, k: nat, v: nat, m: nat, x: nat)
    requires Coherent(s, offset) && l < LEVELS && k < |s.words[l]| && s.cached[l] == Place(offset, l, k)
             && |s.data[l]| == PER_BLOCK && s.data[l] == s.disk[s.cached[l]]
    requires m < LEVELS && x < |s.words[m]|
    ensures var row: seq<nat> := s.data[l][k % PER_BLOCK := v];
            WordOnDisk(s.disk[s.cached[l] := row], Place(offset, m, x), x, Put(s.words, l, k, v)[m][x])
  {
    hide CacheOk;
    assert WordOnDisk(s.disk, Place(offset, m, x), x, s.words[m][x]);
  }

  lemma StoredCache(s: Store, offset: seq<nat>, l: nat, k: nat, v: nat, m: nat)
    requires Coherent(s, offset) && l < LEVELS && k < |s.words[l]| && s.cached[l] == Place(offset, l, k)
             && |s.data[l]| == PER_BLOCK && m < LEVELS
    ensures var row: seq<nat> := s.data[l][k % PER_BLOCK := v];
            CacheOk(Store(s.disk[s.cached[l] := row], s.cached, s.data[l := row], Put(s.words, l, k, v)), offset, m)
  {
    hide Place, OnDisk;
    assert CacheOk(s, offset, m);
    if s.cached[m] != NONE {
      var x: nat :| x < |s.words[m]| && s.cached[m] == Place(offset, m, x);
      var row: seq<nat> := s.data[l][k % PER_BLOCK := v];
      var t := Put(s.words, l, k, v);
      assert |t[m]| == |s.words[m]|;
      assert InLevel(offset, t, m, s.cached[m]);
    }
  }

  // ---------------------------------------------------------------------------
  // Paths from the top level to a free index
  // ---------------------------------------------------------------------------

  /** The bit of level i on the path: the index itself, or the word below. */
  ghost function Below(out: nat, at: seq<nat>, i: nat): nat
    requires i <= |at|
  {
    if i == 0 then out else at[i - 1]
  }

  /** Word at[j] of level j is cached, not zero, and its lowest bit is bit y of the level. */
  ghost predicate OnPath(w: seq<seq<nat>>, offset: seq<nat>, cached: seq<nat>, at: seq<nat>, j: nat, y: nat)
    requires |w| == |offset| == |cached| == |at| == LEVELS && j < LEVELS
  {
    NonZero(w, j, at[j]) && cached[j] == Place(offset, j, at[j]) && y == WORD * at[j] + TrailingZeros(w[j][at[j]])
  }

  /** The path from the top level down to bit y of level i. */
  ghost predicate Path(w: seq<seq<nat>>, offset: seq<nat>, cached: seq<nat>, at: seq<nat>, y: nat, i: nat)
    requires |w| == |offset| == |cached| == |at| == LEVELS
  {
    && (i < LEVELS ==> OnPath(w, offset, cached, at, i, y))
    && forall j: nat :: i < j < LEVELS ==> OnPath(w, offset, cached, at, j, Below(0, at, j))
  }

  /** Changing level i does not touch the path above. */
  lemma PathAbove(w: seq<seq<nat>>, offset: seq<nat>, cached: seq<nat>, at: seq<nat>, y: nat, i: nat, v: nat)
    requires |w| == |offset| == |cached| == |at| == LEVELS && i < LEVELS && Path(w, offset, cached, at, y, i)
             && at[i] < |w[i]|
    ensures Path(Put(w, i, at[i], v), offset, cached, at, at[i], i + 1)
  {
    hide TrailingZeros, Place;
    forall j: nat | i < j < LEVELS ensures OnPath(Put(w, i, at[i], v), offset, cached, at, j, Below(0, at, j)) {
      assert OnPath(w, offset, cached, at, j, Below(0, at, j));
    }
    assert i + 1 < LEVELS ==> OnPath(Put(w, i, at[i], v), offset, cached, at, i + 1, Below(0, at, i + 1));
  }

  lemma PathEmpty(w: seq<seq<nat>>, offset: seq<nat>, cached: seq<nat>, at: seq<nat>, y: nat)
    requires |w| == |offset| == |cached| == |at| == LEVELS
    ensures Path(w, offset, cached, at, y, LEVELS)
  {}

  /** One step down the path. */
  lemma PathDown(w: seq<seq<nat>>, offset: seq<nat>, cached: seq<nat>, at: seq<nat>, y: nat, i: nat)
    requires |w| == |offset| == |cached| == |at| == LEVELS && i < LEVELS && Path(w, offset, cached, at, y, i + 1)
             && NonZero(w, i, y)
    ensures Path(w, offset, cached[i := Place(offset, i, y)], at[i := y], WORD * y + TrailingZeros(w[i][y]), i)
  {
    hide TrailingZeros, Place;
    var t, c := at[i := y], cached[i := Place(offset, i, y)];
    forall j: nat | i < j < LEVELS ensures OnPath(w, offset, c, t, j, Below(0, t, j)) {
      assert OnPath(w, offset, cached, at, j, if j == i + 1 then y else Below(0, at, j));
    }
  }

  lemma PathAt(w: seq<seq<nat>>, offset: seq<nat>, cached: seq<nat>, at: seq<nat>, y: nat, i: nat)
    requires |w| == |offset| == |cached| == |at| == LEVELS && i < LEVELS && Path(w, offset, cached, at, y, i)
    ensures at[i] < |w[i]| && w[i][at[i]] != 0 && NonZero(w, i, at[i]) && cached[i] == Place(offset, i, at[i])
    ensures y == WORD * at[i] + TrailingZeros(w[i][at[i]])
  {
    hide TrailingZeros, Place;
  }

  // ---------------------------------------------------------------------------
  // The cursor
  // ---------------------------------------------------------------------------

  /** The top level of t differs from that of w only in word x, which is not zero. */
  ghost predicate TopChanged(w: seq<seq<nat>>, t: seq<seq<nat>>, x: nat)
    requires |w| == |t| == LEVELS
  {
    |t[TOP]| == |w[TOP]| && NonZero(t, TOP, x)
      && forall k: nat :: k != x ==> (NonZero(t, TOP, k) <==> NonZero(w, TOP, k))
  }

  lemma TopChangedBy(w: seq<seq<nat>>, t: seq<seq<nat>>, l: nat, k: nat, v: nat)
    requires |w| == |t| == LEVELS && t[TOP] == w[TOP] && l < LEVELS && k < |t[l]| && v != 0
    ensures l == TOP ==> TopChanged(w, Put(t, l, k, v), k)
    ensures l < TOP ==> Put(t, l, k, v)[TOP] == w[TOP]
  {}

  /** Clearing a bit at or after the cursor leaves the words before it zero. */
  lemma PutTop(w: seq<seq<nat>>, l: nat, k: nat, v: nat, top: nat)
    requires |w| == LEVELS && l < LEVELS && k < |w[l]| && ZeroBefore(w, top) && (l == TOP ==> k == top)
    ensures ZeroBefore(Put(w, l, k, v), top)
    ensures l < TOP ==> (NonZero(Put(w, l, k, v), TOP, top) <==> NonZero(w, TOP, top))
    ensures l == TOP ==> (NonZero(Put(w, l, k, v), TOP, top) <==> v != 0)
  {
    forall x: nat | x < top ensures !NonZero(Put(w, l, k, v), TOP, x) {
      assert !NonZero(w, TOP, x);
    }
  }

  /** An index below a set summary bit never lies before the cursor. */
  lemma CursorStays(w: seq<seq<nat>>, top: nat, l: nat, x: nat)
    requires |w| == LEVELS && l < LEVELS && ZeroBefore(w, top) && NonZero(w, TOP, TopOf(x, l))
             && TopOf(x, l) <= x / WORD
    ensures x / WORD >= top
  {
    hide NonZero, TopOf;
  }

  /** After a new top bit, the cursor is the smaller of the old one and the bit's word. */
  lemma CursorBack(w: seq<seq<nat>>, t: seq<seq<nat>>, top: nat, x: nat)
    requires |w| == |t| == LEVELS && TopOk(w, top) && TopChanged(w, t, x)
    ensures TopOk(t, if x < top then x else top)
  {
    hide NonZero;
    forall k: nat | k < top && k < x ensures !NonZero(t, TOP, k) {
      assert !NonZero(w, TOP, k);
    }
  }

  /** Only the top level matters for the top level. */
  lemma TopFrame(v: seq<seq<nat>>, w: seq<seq<nat>>, t: seq<seq<nat>>, x: nat)
    requires |v| == |w| == |t| == LEVELS && w[TOP] == v[TOP]
    ensures TopChanged(w, t, x) ==> TopChanged(v, t, x)
  {
    forall k: nat ensures NonZero(w, TOP, k) <==> NonZero(v, TOP, k) {
    }
  }

  lemma NoTop(w: seq<seq<nat>>)
    requires |w| == LEVELS && TopOk(w, |w[TOP]|)
    ensures forall k: nat :: !NonZero(w, TOP, k)
  {}

  lemma SameTop(w: seq<seq<nat>>, t: seq<seq<nat>>, top: nat)
    requires |w| == |t| == LEVELS && TopOk(w, top) && t[TOP] == w[TOP]
    ensures TopOk(t, top)
  {
    forall k: nat | k < top ensures !NonZero(t, TOP, k) {
      assert !NonZero(w, TOP, k);
    }
  }

  class Bitmap {
    const offset: seq<nat>
    const topLength: nat
    var disk: map<nat, seq<nat>>
    var cached: seq<nat>
    var data: seq<seq<nat>>
    var top: nat
    ghost var words: seq<seq<nat>>

    ghost function St(): Store
      reads this
    {
      Store(disk, cached, data, words)
    }

    /** The caches agree with the disk, and the top level has the recorded length. */
    ghost predicate Cached()
      reads this
    {
      Coherent(St(), offset) && topLength == |words[TOP]|
    }

    /** All of that, and the summaries agree and the cursor is right. */
    ghost predicate Valid()
      reads this
    {
      Cached() && Agreeing(words) && TopOk(words, top)
    }

    /** Opens a bitmap whose levels agree on the disk. */
    constructor (disk: map<nat, seq<nat>>, offset: seq<nat>, topLength: nat, ghost words: seq<seq<nat>>)
      requires Agreeing(words) && LevelsApart(offset, words) && OnDisk(disk, offset, words) && topLength == |words[TOP]|
      ensures Valid() && this.words == words && this.disk == disk && this.offset == offset
              && this.topLength == topLength
    {
      this.offset, this.topLength, this.disk := offset, topLength, disk;
      cached := seq(LEVELS, _ => NONE);
      data := seq(LEVELS, _ => []);
      top := 0;
      this.words := words;
      new;
      FindTop();
    }

    /** Makes the block of word k the cached one of its level, and returns the word. */
    method Fetch(l: nat, k: nat) returns (v: nat)
      requires Cached() && l < LEVELS && k < |words[l]|
      modifies this`cached, this`data
      ensures Cached() && v == words[l][k] && cached == old(cached)[l := Place(offset, l, k)]
    {
      hide Coherent, Place;
      CoherentSizes(St(), offset);
      FetchKeeps(St(), offset, l, k);
      var b := Place(offset, l, k);
      if cached[l] != b {
        data := data[l := disk[b]];
        cached := cached[l := b];
      } else {
        assert cached == cached[l := b] && data == data[l := disk[b]];
      }
      v := data[l][k % PER_BLOCK];
    }

    /** Changes a word of the cached block and writes the block back. */
    method Write(l: nat, k: nat, v: nat)
      requires Cached() && l < LEVELS && k < |words[l]| && cached[l] == Place(offset, l, k)
      modifies this`data, this`disk, this`words
      ensures Cached() && words == Put(old(words), l, k, v) && Framed(offset, old(disk), old(words), disk, words)
    {
      hide Coherent, Place, Framed;
      CoherentSizes(St(), offset);
      StoreKeeps(St(), offset, l, k, v);
      var row: seq<nat> := data[l][k % PER_BLOCK := v];
      FramedWrite(offset, disk, words, l, k, v, row);
      data := data[l := row];
      disk := disk[cached[l] := row];
      words := Put(words, l, k, v);
    }

    /** Moves the cursor on to the next top word that is not zero. */
    method FindTop()
      requires Cached() && top <= topLength && ZeroBefore(words, top)
      modifies this`top, this`cached, this`data
      ensures Cached() && TopOk(words, top)
    {
      hide Coherent;
      CoherentSizes(St(), offset);
      while top < topLength
        invariant Cached() && top <= topLength && ZeroBefore(words, top)
        decreases topLength - top
      {
        var v := Fetch(TOP, top);
        if v != 0 {
          break;
        }
        top := top + 1;
      }
    }

    /** Follows the lowest set bits down; returns the free index and the word visited at each level. */
    method Descend() returns (out: nat, at: seq<nat>)
      requires Valid() && top < topLength
      modifies this`cached, this`data
      ensures Cached() && |at| == LEVELS && at[TOP] == top && Path(words, offset, cached, at, out, 0)
      ensures FirstBit(words, 0, out)
    {
      hide Coherent, Agreeing, Place, FirstBit, FirstWord, TrailingZeros, Path;
      CoherentSizes(St(), offset);
      ShapeOf(words);
      FirstTop(words, top);
      out := top;
      at := seq(LEVELS, _ => 0);
      PathEmpty(words, offset, cached, at, out);
      var i := LEVELS;
      while i > 0
        invariant 0 <= i <= LEVELS && Cached() && |at| == LEVELS && |cached| == LEVELS
                  && (i < LEVELS ==> at[TOP] == top && FirstBit(words, i, out))
        invariant i == LEVELS ==> out == top
        invariant i > 0 ==> FirstWord(words, i - 1, out)
        invariant Path(words, offset, cached, at, out, i)
        decreases i
      {
        i := i - 1;
        FirstWordAt(words, i, out);
        PathDown(words, offset, cached, at, out, i);
        var v := Fetch(i, out);
        FirstBitOfWord(words, i, out);
        at := at[i := out];
        out := WORD * out + TrailingZeros(v);
        if i > 0 {
          FirstWordBelow(words, i, out);
        }
        CoherentSizes(St(), offset);
      }
    }

    /**
     * Clears the lowest bit of the words on the path, from the bottom up, until one stays non-zero; returns that level.
     */
    method ClearUp(out: nat, at: seq<nat>) returns (i: nat)
      requires Cached() && Agreeing(words) && |at| == LEVELS && at[TOP] == top
               && Path(words, offset, cached, at, out, 0)
      requires ZeroBefore(words, top) && NonZero(words, TOP, top)
      modifies this`cached, this`data, this`disk, this`words
      ensures Cached() && Agreeing(words) && FreeSet(words) == old(FreeSet(words)) - {out} && i <= LEVELS
      ensures ZeroBefore(words, top) && (NonZero(words, TOP, top) <==> i < LEVELS)
      ensures Framed(offset, old(disk), old(words), disk, words)
    {
      hide Coherent, Place, TrailingZeros, FreeSet, Shape, SummedBut, Flips, And, ZeroBefore, Path, Framed;
      CoherentSizes(St(), offset);
      FramedSelf(offset, disk, words);
      i := 0;
      SummedFewer(words, 0, out);
      while i < LEVELS
        invariant i <= LEVELS && Cached() && Shape(words) && |cached| == |words| == LEVELS
        invariant SummedBut(words, i, Below(out, at, i)) && (i > 0 ==> !NonZero(words, i - 1, Below(out, at, i)))
        invariant Path(words, offset, cached, at, Below(out, at, i), i)
        invariant FreeSet(words) == if i == 0 then old(FreeSet(words)) else old(FreeSet(words)) - {out}
        invariant ZeroBefore(words, top) && (i < LEVELS ==> NonZero(words, TOP, top))
        invariant Framed(offset, old(disk), old(words), disk, words)
      {
        PathAt(words, offset, cached, at, Below(out, at, i), i);
        var k := at[i];
        ghost var c := cached;
        var v := Fetch(i, k);
        assert cached == c;
        AndFlips(words, i, k);
        FlippedSummary(words, i, k, And(v, v - 1), TrailingZeros(v), false);
        FlippedFree(words, i, k, And(v, v - 1), TrailingZeros(v), false);
        PathAbove(words, offset, cached, at, Below(out, at, i), i, And(v, v - 1));
        PutTop(words, i, k, And(v, v - 1), top);
        ghost var d, w := disk, words;
        Write(i, k, And(v, v - 1));
        FramedTwice(offset, old(disk), old(words), d, w, disk, words);
        CoherentSizes(St(), offset);
        if And(v, v - 1) != 0 {
          return;
        }
        i := i + 1;
      }
      SummedTop(words, Below(out, at, i));
    }

    /** Sets bit x of level i, unless it is set already. */
    method Raise(i: nat, x: nat) returns (already: bool)
      requires Cached() && Shape(words) && |words| == LEVELS && i < LEVELS && x < WORD * |words[i]|
      requires SummedBut(words, i, x) && (i > 0 ==> NonZero(words, i - 1, x))
      modifies this`cached, this`data, this`disk, this`words
      ensures Cached() && |words| == LEVELS && x / WORD < |words[i]|
      ensures already ==> words == old(words) && Agreeing(words) && BitAt(words, i, x)
      ensures !already ==> Shape(words) && SummedBut(words, i + 1, x / WORD) && NonZero(words, i, x / WORD)
      ensures !already ==> FreeSet(words) == if i == 0 then old(FreeSet(words)) + {x} else old(FreeSet(words))
      ensures !already ==> if i < TOP then words[TOP] == old(words)[TOP] else TopChanged(old(words), words, x / WORD)
      ensures Framed(offset, old(disk), old(words), disk, words)
    {
      hide Coherent, Place, FreeSet, Shape, SummedBut, Flips, Or, NonZero, BitAt, Bit, Size, TopChanged, Framed;
      CoherentSizes(St(), offset);
      FramedSelf(offset, disk, words);
      var bit := x % WORD;
      var k := x / WORD;
      var v := Fetch(i, k);
      if Bit(v, bit) {
        AlreadySet(words, i, x);
        return true;
      }
      var u := Or(v, Size(bit));
      OrFlips(words, i, k, bit);
      FlippedSummary(words, i, k, u, bit, true);
      FlippedFree(words, i, k, u, bit, true);
      FlipsBound(words, i, k, u, bit, true);
      PutShape(words, i, k, u);
      TopChangedBy(words, words, i, k, u);
      Write(i, k, u);
      CoherentSizes(St(), offset);
      already := false;
    }

    /** Gives an index back. Summaries are raised until one is already set; the cursor moves back only if needed. */
    method Dealloc(index: nat)
      requires Valid() && index < WORD * |words[0]|
      modifies this
      ensures Valid() && FreeSet(words) == old(FreeSet(words)) + {index}
      ensures Framed(offset, old(disk), old(words), disk, words)
    {
      hide Coherent, FreeSet, Shape, SummedBut, ZeroBefore, NonZero, BitAt, TopChanged, Framed;
      CoherentSizes(St(), offset);
      FramedSelf(offset, disk, words);
      var x: nat, i: nat := index, 0;
      SummedFewer(words, 0, index);
      while i < LEVELS
        invariant i <= LEVELS && Cached() && Shape(words) && |words| == LEVELS && top == old(top)
                  && (i < LEVELS ==> x < WORD * |words[i]|)
        invariant SummedBut(words, i, x) && (i > 0 ==> NonZero(words, i - 1, x)) && (i == 0 ==> x == index)
        invariant FreeSet(words) == if i == 0 then old(FreeSet(words)) else old(FreeSet(words)) + {index}
        invariant if i < LEVELS then words[TOP] == old(words)[TOP] else TopChanged(old(words), words, x)
        invariant Framed(offset, old(disk), old(words), disk, words)
      {
        ghost var d, w := disk, words;
        var already := Raise(i, x);
        FramedTwice(offset, old(disk), old(words), d, w, disk, words);
        if already {
          if i == 0 {
            AlreadyFree(words, x);
          }
          SeenAtTop(words, i, x);
          SameTop(old(words), words, top);
          CursorStays(words, top, i, x);
          x := x / WORD;
          break;
        }
        ShapeLevels(words);
        TopFrame(old(words), w, words, x / WORD);
        x := x / WORD;
        i := i + 1;
      }
      if i == LEVELS {
        SummedTop(words, x);
        CursorBack(old(words), words, top, x);
      }
      if x < top {
        top := x;
      }
    }

    /**
      * Takes the smallest free index. A full bitmap yields 0 as well, and changes nothing.
      */
    method Alloc() returns (out: nat)
      requires Valid()
      modifies this
      ensures Valid()
      ensures old(FreeSet(words)) == {} ==> out == 0 && words == old(words) && disk == old(disk)
      ensures old(FreeSet(words)) != {} ==>
                && out in old(FreeSet(words)) && (forall x :: x in old(FreeSet(words)) ==> out <= x)
                && FreeSet(words) == old(FreeSet(words)) - {out}
      ensures Framed(offset, old(disk), old(words), disk, words)
    {
      hide Coherent, Agreeing, FreeSet, NonZero, Framed;
      CoherentSizes(St(), offset);
      FramedSelf(offset, disk, words);
      if top == topLength {
        NoTop(words);
        NothingBelow(words, TOP);
        return 0;
      }
      var at;
      out, at := Descend();
      FirstFree(words, out);
      var i := ClearUp(out, at);
      if i == LEVELS {
        top := top + 1;
        FindTop();
      }
    }
  }

  lemma CoherentSizes(s: Store, offset: seq<nat>)
    requires Coherent(s, offset)
    ensures |offset| == |s.words| == |s.cached| == |s.data| == LEVELS
  {}

  /** The first set bit of level 0 is the smallest free index. */
  lemma FirstFree(w: seq<seq<nat>>, o: nat)
    requires |w| == LEVELS && FirstBit(w, 0, o)
    ensures o in FreeSet(w) && forall x :: x in FreeSet(w) ==> o <= x
  {
    hide BitAt;
  }

  lemma ShapeOf(w: seq<seq<nat>>)
    requires Agreeing(w)
    ensures Shape(w) && |w| == LEVELS
  {
    hide Size, SummedBut;
  }

  lemma FirstTop(w: seq<seq<nat>>, top: nat)
    requires |w| == LEVELS && TopOk(w, top) && top < |w[TOP]|
    ensures FirstWord(w, TOP, top)
  {
    hide NonZero;
  }

  lemma FirstWordAt(w: seq<seq<nat>>, l: nat, o: nat)
    requires l < |w| && FirstWord(w, l, o)
    ensures NonZero(w, l, o) && o < |w[l]| && w[l][o] != 0
  {}

  /** A summary bit that is already set is already right, so all summaries are. */
  lemma AlreadySet(w: seq<seq<nat>>, i: nat, x: nat)
    requires Shape(w) && i < LEVELS && SummedBut(w, i, x) && x < WORD * |w[i]| && Bit(w[i][x / WORD], x % WORD)
             && (i > 0 ==> NonZero(w, i - 1, x))
    ensures BitAt(w, i, x) && Agreeing(w)
  {
    hide Shape, SummedBut, NonZero, Bit;
    ShapeLevels(w);
    assert BitAt(w, i, x);
    SummedAll(w, i, x);
  }

  lemma AlreadyFree(w: seq<seq<nat>>, x: nat)
    requires |w| == LEVELS && x < WORD * |w[0]| && BitAt(w, 0, x)
    ensures FreeSet(w) + {x} == FreeSet(w)
  {
    hide BitAt;
    assert x in FreeSet(w);
  }

  /** Word k of level l: block k / 512 of the level on the disk, word k % 512 of it. */
  lemma WordAt(b: Bitmap, l: nat, k: nat)
    requires b.Valid() && l < 5 && k < |b.words[l]|
    ensures |b.offset| == 5 && b.offset[l] + k / 512 in b.disk && |b.disk[b.offset[l] + k / 512]| == 512
    ensures b.words[l][k] == b.disk[b.offset[l] + k / 512][k % 512]
  {
    hide Agreeing, TopOk, CacheOk;
    assert WordOnDisk(b.disk, Place(b.offset, l, k), k, b.words[l][k]);
  }

  /** Bit x of level l on the disk: in block x / 32768 of the level. */
  ghost predicate DiskBit(disk: map<nat, seq<nat>>, offset: seq<nat>, l: nat, x: nat)
    requires l < |offset|
  {
    && offset[l] + x / 32768 in disk && |disk[offset[l] + x / 32768]| == 512
    && disk[offset[l] + x / 32768][x / 64 % 512] / Size(x % 64) % 2 == 1
  }

  /** An index is free exactly when its bit of the lowest level is set on the disk. */
  lemma FreeOnDisk(b: Bitmap, x: nat)
    requires b.Valid() && x < 64 * |b.words[0]|
    ensures |b.offset| == 5 && (x in FreeSet(b.words) <==> DiskBit(b.disk, b.offset, 0, x))
  {
    hide Coherent, Agreeing, TopOk, Bit, Size, Place;
    CoherentSizes(b.St(), b.offset);
    BitOnDisk(b, 0, x);
  }

  lemma BitOnDisk(b: Bitmap, l: nat, x: nat)
    requires b.Valid() && l < 5 && x < 64 * |b.words[l]|
    ensures |b.words| == 5 && |b.offset| == 5 && (BitAt(b.words, l, x) <==> DiskBit(b.disk, b.offset, l, x))
  {
    hide Coherent, Agreeing, TopOk, Bit, Size, Place;
    CoherentSizes(b.St(), b.offset);
    WordAt(b, l, x / 64);
    DivDiv(x, 64, 512);
    BitDivides(b.words[l][x / 64], x % 64);
  }

  /** A bit of a higher level is set on the disk exactly when its word of the level below is not zero there. */
  lemma SummaryOnDisk(b: Bitmap, l: nat, x: nat)
    requires b.Valid() && 1 <= l < 5 && x < 64 * |b.words[l]|
    ensures |b.words| == 5 && |b.offset| == 5
    ensures x < |b.words[l - 1]| ==> b.offset[l - 1] + x / 512 in b.disk && |b.disk[b.offset[l - 1] + x / 512]| == 512
    ensures DiskBit(b.disk, b.offset, l, x) <==>
            x < |b.words[l - 1]| && b.disk[b.offset[l - 1] + x / 512][x % 512] != 0
  {
    hide Coherent, TopOk, Bit, Size, Place, Shape;
    CoherentSizes(b.St(), b.offset);
    BitOnDisk(b, l, x);
    assert Summed(b.words, l, x);
    if x < |b.words[l - 1]| {
      WordAt(b, l - 1, x);
    }
  }
}
