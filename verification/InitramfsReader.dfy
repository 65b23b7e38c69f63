/**
 * The initial file system as the kernel reads it: offsets walked through the image, and the round trip with the writer.
 */
module InitramfsReader {
  import opened Arithmetic
  import opened Wrappers
  import opened InitramfsImage

  const ROOT := 24
  const MODULUS64 := 0x1_0000_0000_0000_0000
  /** The largest buffer the page allocator hands out. */
  const BUFFER := 0x800_0000

  /** What the kernel keeps of a node. */
  datatype VNode = VNode(offset: nat, size: nat, dataSize: nat, childCount: nat, nameLength: nat, flags: nat)

  datatype Fields = Fields(size: nat, dataSize: nat, childCount: nat, flags: nat, nameLength: nat)

  /**
    * Reads from the image through a buffer of the requested size; short at the end of the image. The request is cut
    * there by a 64-bit sum. Nothing comes of one that is too large for a buffer (a panic).
    */
  function DriveRead(img: seq<nat>, o: nat, n: nat): (r: Option<seq<nat>>)
    ensures o + n <= |img| < MODULUS64 && n <= BUFFER ==> r == Some(img[o..o + n])
  {
    if o >= |img| then
      assert o + n <= |img| ==> img[o..o + n] == [];
      Some([])
    else
      var size := if (o + n) % MODULUS64 > |img| then |img| - o else n;
      if size == 0 then Some([]) else if size > BUFFER || o + size > |img| then None else Some(img[o..o + size])
  }

  /** The fixed fields of a node from its first twelve bytes. */
  function Parse(b: seq<nat>): Fields
    requires |b| == HEADER
  {
    Fields(Number(b[0..4]), Number(b[4..8]), Number(b[8..10]), b[10], b[11])
  }

  /** v describes node n at offset o. */
  ghost predicate Describes(v: VNode, o: nat, n: Node)
  {
    v == VNode(o, Recorded(n), |n.data|, |n.children|, |n.name|, n.flags)
  }

  /** The node and its image are fit to be read; every node starts below 4 GiB, since none is smaller than 16 bytes. */
  ghost predicate Readable(img: seq<nat>, o: nat, n: Node)
  {
    Holds(img, o, n) && Packs(n) && Unmasked(n) && o > 0 && o + Recorded(n) < LIMIT32 + 16 && |img| < MODULUS64
  }

  ghost function Fixed(n: Node): seq<nat>
  {
    Little(Recorded(n), 4) + Little(|n.data|, 4) + Little(|n.children|, 2) + [n.flags, |n.name|]
  }

  lemma HeadSplit(n: Node) returns (rest: seq<nat>)
    ensures Bytes(n) == Fixed(n) + n.name + rest
  {
    hide Body, BytesUpTo, Recorded, Little;
    var pad := Zeros(Aligned(HEADER + |n.name|) - HEADER - |n.name|);
    rest := pad + Body(n) + BytesUpTo(n, |n.children|);
    assert Bytes(n) == Fixed(n) + n.name + rest;
  }

  /** Reading the fields of a node gives back what was written. */
  lemma FieldsHeld(img: seq<nat>, o: nat, n: Node)
    requires Readable(img, o, n)
    ensures o + HEADER <= |img|
            && Parse(img[o..o + HEADER]) == Fields(Recorded(n), |n.data|, |n.children|, n.flags, |n.name|)
  {
    hide Bytes, Unmasked, Recorded, Little, Number;
    var a, b, c := Little(Recorded(n), 4), Little(|n.data|, 4), Little(|n.children|, 2);
    var rest := HeadSplit(n);
    var fixed := Fixed(n);
    Within(img, o, Bytes(n), [], fixed, n.name + rest) by {
      assert Bytes(n) == [] + fixed + (n.name + rest);
    }
    assert img[o..o + HEADER] == fixed;
    assert fixed[0..4] == a && fixed[4..8] == b && fixed[8..10] == c;
    assert Pow(256, 4) == LIMIT32 && Pow(256, 2) == 0x1_0000;
    LittleNumber(Recorded(n), 4);
    LittleNumber(|n.data|, 4);
    LittleNumber(|n.children|, 2);
  }

  lemma NameHeld(img: seq<nat>, o: nat, n: Node)
    requires Readable(img, o, n)
    ensures o + HEADER + |n.name| <= |img| && img[o + HEADER..o + HEADER + |n.name|] == n.name
  {
    hide Bytes, Unmasked, Packs, Recorded, Little;
    var rest := HeadSplit(n);
    Within(img, o, Bytes(n), Fixed(n), n.name, rest);
  }

  /** Each child of a readable node is readable where its siblings' sizes lead. */
  lemma ChildReadable(img: seq<nat>, o: nat, n: Node, i: nat)
    requires Readable(img, o, n) && i < |n.children|
    ensures Readable(img, ChildOffset(o, n, i), n.children[i])
    ensures ChildOffset(o, n, i + 1) == ChildOffset(o, n, i) + Recorded(n.children[i])
  {
    hide Holds, Aligned, Recorded;
    ChildHeld(img, o, n, i);
    OwnSize(n);
    UpToGrows(n, i + 1);
  }

  // ---------------------------------------------------------------------------
  // Looking up a child
  // ---------------------------------------------------------------------------

  /** Child i is the first one with the name. */
  ghost predicate FirstNamed(n: Node, name: seq<nat>, i: nat)
  {
    i < |n.children| && n.children[i].name == name && forall j :: 0 <= j < i ==> n.children[j].name != name
  }

  /** Finds the first child with the given name by stepping over the sizes of its elder siblings. */
  method Lookup(img: seq<nat>, v: VNode, name: seq<nat>, ghost n: Node) returns (r: Option<VNode>, ghost i: nat)
    requires Readable(img, v.offset, n) && Describes(v, v.offset, n)
    ensures r == None <==> n.flags % 2 == 0 || forall j :: 0 <= j < |n.children| ==> n.children[j].name != name
    ensures r.Some? ==> FirstNamed(n, name, i) && Describes(r.value, ChildOffset(v.offset, n, i), n.children[i])
  {
    hide Holds, Readable, Recorded, Parse, DriveRead;
    i := 0;
    if v.offset == 0 || v.flags % 2 == 0 {
      NonZeroOffset(img, v.offset, n);
      return None, 0;
    }
    var offset := (v.offset + Aligned(HEADER + v.nameLength) + Aligned(v.dataSize)) % LIMIT32;
    for k := 0 to v.childCount
      invariant offset == ChildOffset(v.offset, n, k) % LIMIT32
      invariant forall j :: 0 <= j < k ==> n.children[j].name != name
    {
      ChildReadable(img, v.offset, n, k);
      BelowLimit(img, ChildOffset(v.offset, n, k), n.children[k]);
      var c, same := Compare(img, offset, name, n.children[k]);
      if same {
        return Some(VNode(offset, c.size, c.dataSize, c.childCount, c.nameLength, c.flags)), k;
      }
      offset := (offset + c.size) % LIMIT32;
    }
    return None, 0;
  }

  /** Reads the fields of a node and compares its name byte by byte. */
  method Compare(img: seq<nat>, offset: nat, name: seq<nat>, ghost n: Node) returns (c: Fields, same: bool)
    requires Readable(img, offset, n)
    ensures c == Fields(Recorded(n), |n.data|, |n.children|, n.flags, |n.name|) && (same <==> n.name == name)
  {
    hide Holds, Readable, Recorded, Parse;
    FieldsHeld(img, offset, n);
    NameHeld(img, offset, n);
    NameBound(img, offset, n);
    var b := DriveRead(img, offset, HEADER);
    c := Parse(b.value);
    if c.nameLength != |name| {
      return c, false;
    }
    var buffer := DriveRead(img, offset + HEADER, c.nameLength).value;
    for k := 0 to c.nameLength
      invariant buffer[..k] == name[..k]
    {
      if buffer[k] != name[k] {
        return c, false;
      }
    }
    assert buffer[..|buffer|] == buffer && name[..|name|] == name;
    same := true;
  }

  lemma NameBound(img: seq<nat>, o: nat, n: Node)
    requires Readable(img, o, n)
    ensures |n.name| < 0x100 && |img| < MODULUS64
  {
    hide Holds, Recorded;
  }

  lemma BelowLimit(img: seq<nat>, o: nat, n: Node)
    requires Readable(img, o, n)
    ensures o < LIMIT32
  {
    hide RecordedUpTo;
    NodeNotEmpty(n);
  }

  lemma NonZeroOffset(img: seq<nat>, o: nat, n: Node)
    requires Readable(img, o, n)
    ensures o > 0
  {}

  // ---------------------------------------------------------------------------
  // Listing a directory
  // ---------------------------------------------------------------------------

  /** The node ends below 4 GiB, so that its end fits the 32 bits in which the listing computes it. */
  ghost predicate EndsInRange(o: nat, n: Node)
  {
    o + Recorded(n) < LIMIT32
  }

  /**
    * One step of a listing: the name of the child at the pointer (0 starts) and the pointer to the next; 0 ends. The
    * end of the directory is a 32-bit sum: if it wraps, every step ends the listing.
    */
  method Iterate(img: seq<nat>, v: VNode, pointer: nat, ghost n: Node, ghost k: nat) returns (next: nat, name: seq<nat>)
    requires Readable(img, v.offset, n) && Describes(v, v.offset, n) && k <= |n.children|
    requires if pointer == 0 then k == 0 else pointer == ChildOffset(v.offset, n, k)
    ensures if n.flags % 2 == 1 && k < |n.children| && EndsInRange(v.offset, n)
            then next == ChildOffset(v.offset, n, k + 1) > 0 && name == n.children[k].name
            else next == 0
  {
    hide Holds, Readable, Recorded, Parse, RecordedUpTo, DriveRead, Aligned;
    name := [];
    if v.offset == 0 || v.flags % 2 == 0 {
      NonZeroOffset(img, v.offset, n);
      return 0, [];
    }
    var p := if pointer == 0 then v.offset + Aligned(HEADER + v.nameLength) + Aligned(v.dataSize) else pointer;
    StartOffset(v.offset, n);
    EndOffset(img, v.offset, n, k);
    if p >= (v.offset + v.size) % LIMIT32 {
      return 0, [];
    }
    ChildReadable(img, v.offset, n, k);
    FieldsHeld(img, p, n.children[k]);
    NameHeld(img, p, n.children[k]);
    NameBound(img, p, n.children[k]);
    var c := Parse(DriveRead(img, p, HEADER).value);
    name := DriveRead(img, p + HEADER, c.nameLength).value;
    next := p + c.size;
  }

  lemma StartOffset(o: nat, n: Node)
    ensures ChildOffset(o, n, 0) == o + Aligned(HEADER + |n.name|) + Aligned(|n.data|)
  {}

  /** The offset of a child lies before the end of the node, the one after the last child is the end. */
  lemma EndOffset(img: seq<nat>, o: nat, n: Node, k: nat)
    requires Readable(img, o, n) && k <= |n.children|
    ensures ChildOffset(o, n, k) >= o + Recorded(n) <==> k == |n.children|
    ensures ChildOffset(o, n, k) >= 16 && o + Recorded(n) < LIMIT32 + 16
  {
    hide Holds, Recorded, RecordedUpTo, Packs, Unmasked;
    UpToGrows(n, k);
    OwnSize(n);
  }

  lemma {:induction false} UpToGrows(n: Node, k: nat)
    requires Packs(n) && k <= |n.children|
    ensures RecordedUpTo(n, k) <= RecordedUpTo(n, |n.children|)
            && (k < |n.children| ==> RecordedUpTo(n, k) < RecordedUpTo(n, |n.children|))
    decreases |n.children| - k
  {
    hide Unmasked;
    if k < |n.children| {
      UpToGrows(n, k + 1);
      NodeNotEmpty(n.children[k]);
    }
  }

  lemma NodeNotEmpty(n: Node)
    requires |n.name| < 0x100
    ensures Recorded(n) >= 16
  {
    hide RecordedUpTo;
  }

  ghost function Names(n: Node, k: nat): (r: seq<seq<nat>>)
    requires k <= |n.children|
    ensures |r| == k && forall i :: 0 <= i < k ==> r[i] == n.children[i].name
  {
    if k == 0 then [] else Names(n, k - 1) + [n.children[k - 1].name]
  }

  /**
   * Listing a directory from the start gives each child's name once, in order, exactly if the directory ends in range.
   */
  method List(img: seq<nat>, v: VNode, ghost n: Node) returns (names: seq<seq<nat>>)
    requires Readable(img, v.offset, n) && Describes(v, v.offset, n)
    ensures names == if n.flags % 2 == 1 && EndsInRange(v.offset, n) then Names(n, |n.children|) else []
    ensures n.flags % 2 == 1 && n.children != [] ==> (names == Names(n, |n.children|) <==> EndsInRange(v.offset, n))
  {
    hide Readable, Holds, Recorded, RecordedUpTo, EndsInRange;
    names := [];
    var pointer, name := Iterate(img, v, 0, n, 0);
    ghost var k := 0;
    while pointer != 0
      invariant k <= |n.children| && names == Names(n, k)
                && (k > 0 ==> n.flags % 2 == 1 && EndsInRange(v.offset, n))
      invariant if n.flags % 2 == 1 && k < |n.children| && EndsInRange(v.offset, n)
                then pointer == ChildOffset(v.offset, n, k + 1) > 0 && name == n.children[k].name
                else pointer == 0
      decreases |n.children| - k
    {
      names := names + [name];
      k := k + 1;
      pointer, name := Iterate(img, v, pointer, n, k);
    }
  }

  // ---------------------------------------------------------------------------
  // Reading contents
  // ---------------------------------------------------------------------------

  /** How much of a request lies before the end of the contents. */
  function Cut(offset: nat, size: nat, length: nat): nat
    requires offset <= length
  {
    if offset + size > length then length - offset else size
  }

  /**
    * Reads from a file, cut at its end. There is no result (a panic) exactly when the cut request is larger than any
    * buffer, or when the 64-bit sum of offset and size wraps: that request passes both length tests uncut.
    */
  method Read(img: seq<nat>, v: VNode, offset: nat, size: nat, ghost n: Node) returns (r: Option<seq<nat>>)
    requires Readable(img, v.offset, n) && Describes(v, v.offset, n) && offset < MODULUS64 && size < MODULUS64
    ensures r == None <==>
            offset < |n.data| && (offset + size >= 0x1_0000_0000_0000_0000 || Cut(offset, size, |n.data|) > 0x800_0000)
    ensures r.Some? && offset >= |n.data| ==> r.value == []
    ensures r.Some? && offset < |n.data| ==> r.value == n.data[offset..offset + Cut(offset, size, |n.data|)]
  {
    hide Readable, Holds, Recorded, Aligned, DriveRead;
    DataReadable(img, v.offset, n);
    DataBound(img, v, n);
    if v.offset == 0 || offset >= v.dataSize {
      NonZeroOffset(img, v.offset, n);
      return Some([]);
    }
    var count := size;
    if (size + offset) % MODULUS64 > v.dataSize {
      count := v.dataSize - offset;
    }
    if count == 0 {
      return Some([]);
    }
    var start := v.offset + Aligned(HEADER + v.nameLength) + offset;
    r := DriveRead(img, start, count);
    if count > BUFFER {
      LargeRequest(img, start, count);
    } else {
      Slice(img, v.offset + Aligned(HEADER + |n.name|), n.data, offset, count);
    }
  }

  /** A request beyond every buffer that is not cut. */
  lemma LargeRequest(img: seq<nat>, o: nat, n: nat)
    requires o < |img| < MODULUS64 && BUFFER < n < MODULUS64 && (o + n <= |img| || o + n >= MODULUS64)
    ensures DriveRead(img, o, n) == None
  {}

  /** Reads a file in pieces that fit a buffer. */
  method ReadWhole(img: seq<nat>, v: VNode, ghost n: Node) returns (contents: seq<nat>)
    requires Readable(img, v.offset, n) && Describes(v, v.offset, n)
    ensures contents == n.data
  {
    hide Readable, Holds, Recorded;
    DataBound(img, v, n);
    contents := [];
    while |contents| < v.dataSize
      invariant |contents| <= |n.data| && contents == n.data[..|contents|]
      decreases |n.data| - |contents|
    {
      ghost var before := contents;
      var piece := Read(img, v, |contents|, BUFFER, n);
      contents := contents + piece.value;
      assert n.data[..|contents|] == n.data[..|before|] + n.data[|before|..|contents|];
    }
    assert n.data[..|n.data|] == n.data;
  }

  lemma DataBound(img: seq<nat>, v: VNode, n: Node)
    requires Readable(img, v.offset, n) && Describes(v, v.offset, n)
    ensures v.dataSize == |n.data| < LIMIT32 && v.offset + Aligned(HEADER + |n.name|) + |n.data| <= |img| < MODULUS64
  {
    hide Recorded, Holds;
    DataReadable(img, v.offset, n);
  }

  lemma DataReadable(img: seq<nat>, o: nat, n: Node)
    requires Readable(img, o, n)
    ensures var d := o + Aligned(HEADER + |n.name|); d + |n.data| <= |img| && img[d..d + |n.data|] == n.data
  {
    hide Aligned;
    DataHeld(img, o, n);
  }

  lemma Slice(img: seq<nat>, d: nat, data: seq<nat>, o: nat, c: nat)
    requires d + |data| <= |img| && img[d..d + |data|] == data && o + c <= |data|
    ensures img[d + o..d + o + c] == data[o..o + c]
  {
    var w := img[d..d + |data|];
    var lo, hi := d + o, d + o + c;
    forall i | 0 <= i < c ensures img[lo..hi][i] == data[o..o + c][i] {
      assert w[o + i] == data[o + i];
    }
  }

  // ---------------------------------------------------------------------------
  // The whole file system
  // ---------------------------------------------------------------------------

  /** The drive a file system is looked for on. */
  datatype Drive = Drive(start: nat, initramfs: bool, blockSize: nat, image: seq<nat>)

  /** Mounts a drive: checks the partition, the drive's kind and the signature, and reads the root node. */
  method Load(d: Drive) returns (r: Option<VNode>)
    requires |d.image| < MODULUS64
    ensures r.None? <==>
            || d.start != 0 || !d.initramfs || d.blockSize != 1
            || |d.image| < ROOT + HEADER || Number(d.image[..8]) != SIGNATURE
    ensures r.Some? ==> r.value.offset == ROOT
    ensures forall n :: r.Some? && Readable(d.image, ROOT, n) ==> Describes(r.value, ROOT, n)
  {
    hide Readable, Parse, Number;
    if d.start != 0 || !d.initramfs || d.blockSize != 1 {
      return None;
    }
    var img := d.image;
    var header := DriveRead(img, 0, ROOT).value;
    if |header| != ROOT {
      return None;
    }
    assert header[..8] == img[..8];
    if Number(header[..8]) != SIGNATURE {
      return None;
    }
    var b := DriveRead(img, ROOT, HEADER).value;
    if |b| != HEADER {
      return None;
    }
    var c := Parse(b);
    forall n | Readable(img, ROOT, n) ensures c == Fields(Recorded(n), |n.data|, |n.children|, n.flags, |n.name|) {
      FieldsHeld(img, ROOT, n);
    }
    r := Some(VNode(ROOT, c.size, c.dataSize, c.childCount, c.nameLength, c.flags));
  }

  /** The node a path of names leads to, taking the first of equally named siblings. */
  ghost function Find(n: Node, path: seq<seq<nat>>): Option<Node>
    decreases |path|
  {
    if path == [] then Some(n)
    else if n.flags % 2 == 0 then None
    else if exists i: nat :: FirstNamed(n, path[0], i) then
      var i: nat :| FirstNamed(n, path[0], i);
      Find(n.children[i], path[1..])
    else None
  }

  /** Following a path from a node finds exactly what the tree has there. */
  method Open(img: seq<nat>, root: VNode, path: seq<seq<nat>>, ghost n: Node) returns (r: Option<VNode>, ghost m: Node)
    requires Readable(img, root.offset, n) && Describes(root, root.offset, n)
    ensures r.None? <==> Find(n, path) == None
    ensures r.Some? ==>
            Find(n, path) == Some(m) && Readable(img, r.value.offset, m) && Describes(r.value, r.value.offset, m)
    ensures r.Some? ==> r.value.offset + Recorded(m) <= root.offset + Recorded(n)
  {
    hide Readable, Describes, Recorded;
    var v := root;
    m := n;
    for k := 0 to |path|
      invariant Readable(img, v.offset, m) && Describes(v, v.offset, m)
      invariant v.offset + Recorded(m) <= root.offset + Recorded(n)
      invariant Find(n, path) == Find(m, path[k..])
    {
      var c, i := Lookup(img, v, path[k], m);
      FindStep(m, path[k..], c.Some?, i);
      if c.None? {
        return None, m;
      }
      FoundChild(img, v, m, c.value, i);
      v := c.value;
      assert path[k..][1..] == path[k + 1..];
      m := m.children[i];
    }
    assert path[|path|..] == [];
    r := Some(v);
  }

  lemma FindStep(n: Node, path: seq<seq<nat>>, found: bool, i: nat)
    requires path != []
    requires found ==> n.flags % 2 == 1 && FirstNamed(n, path[0], i)
    requires !found ==> n.flags % 2 == 0 || forall j :: 0 <= j < |n.children| ==> n.children[j].name != path[0]
    ensures if found then Find(n, path) == Find(n.children[i], path[1..]) else Find(n, path) == None
  {
    if found {
      assert forall j: nat :: FirstNamed(n, path[0], j) ==> j == i;
    }
  }

  lemma FoundChild(img: seq<nat>, v: VNode, n: Node, c: VNode, i: nat)
    requires Readable(img, v.offset, n) && i < |n.children| && Describes(c, ChildOffset(v.offset, n, i), n.children[i])
    ensures Readable(img, c.offset, n.children[i]) && Describes(c, c.offset, n.children[i])
    ensures c.offset + Recorded(n.children[i]) <= v.offset + Recorded(n)
  {
    hide Readable, Recorded;
    ChildReadable(img, v.offset, n, i);
    ChildEnd(img, v.offset, n, i);
  }

  lemma ChildEnd(img: seq<nat>, o: nat, n: Node, i: nat)
    requires Readable(img, o, n) && i < |n.children|
    ensures ChildOffset(o, n, i) + Recorded(n.children[i]) <= o + Recorded(n)
  {
    hide Holds, Recorded, Aligned;
    OwnSize(n);
    UpToGrows(n, i + 1);
  }

  /** A written image has its signature and its root where the reader looks. */
  lemma ImageReadable(root: Node, uuid: seq<nat>, img: seq<nat>)
    requires Image(root, uuid) == Written(img) && |uuid| == 16 && Unmasked(root) && ROOT + Recorded(root) < LIMIT32 + 16
    ensures Readable(img, ROOT, root) && ROOT + HEADER <= |img| < MODULUS64 && Number(img[..8]) == SIGNATURE
  {
    hide Bytes, Packs, Unmasked, Recorded, Number, Little;
    var sig := Little(SIGNATURE, 8);
    var pad := Zeros((4096 - Recorded(root) % 4096) % 4096);
    assert img == (sig + uuid) + Bytes(root) + pad;
    assert img[..|img|] == img;
    Within(img, 0, img, sig + uuid, Bytes(root), pad);
    RecordedLength(root);
    FieldsHeld(img, ROOT, root);
    assert img[..8] == sig;
    assert Pow(256, 8) == MODULUS64;
    LittleNumber(SIGNATURE, 8);
  }

  /**
    * The round trip: whatever tree is written, mounting the image and opening a path finds the node the tree has there;
    * reading it in pieces gives its contents, and listing it gives its names unless its end wraps in 32 bits.
    */
  method RoundTrip(root: Node, uuid: seq<nat>, img: seq<nat>, path: seq<seq<nat>>)
    returns (contents: Option<seq<nat>>, names: seq<seq<nat>>, ghost o: nat)
    requires Image(root, uuid) == Written(img) && |uuid| == 16 && Unmasked(root) && ROOT + Recorded(root) < LIMIT32 + 16
    ensures contents == match Find(root, path) case None => None case Some(m) => Some(m.data)
    ensures match Find(root, path)
            case None => names == []
            case Some(m) =>
              && Holds(img, o, m) && o + Recorded(m) <= ROOT + Recorded(root)
              && names == if m.flags % 2 == 1 && EndsInRange(o, m) then Names(m, |m.children|) else []
  {
    hide Readable, Describes, Recorded, Image, Find;
    ImageReadable(root, uuid, img);
    var mounted := Load(Drive(0, true, 1, img));
    names, o := [], 0;
    var v, m := Open(img, mounted.value, path, root);
    if v.None? {
      return None, [], 0;
    }
    var all := ReadWhole(img, v.value, m);
    contents := Some(all);
    names := List(img, v.value, m);
    o := v.value.offset;
    ReadableHolds(img, o, m);
  }

  lemma ReadableHolds(img: seq<nat>, o: nat, n: Node)
    requires Readable(img, o, n)
    ensures Holds(img, o, n)
  {}

  // ---------------------------------------------------------------------------
  // Inputs at which the limits bite
  // ---------------------------------------------------------------------------

  /** A directory with one file of the given length, written and mounted. */
  method OneFile(length: nat) returns (root: Node, img: seq<nat>, v: VNode, file: VNode)
    requires length % 8 == 0 && length <= LIMIT32 - 56
    ensures root == Node([], 1, [Node([97], 0, [], Zeros(length))], [])
    ensures Readable(img, ROOT, root) && Describes(v, ROOT, root) && v.offset == ROOT && Recorded(root) == length + 32
    ensures Readable(img, file.offset, root.children[0]) && Describes(file, file.offset, root.children[0])
  {
    hide Readable, Bytes;
    root := Node([], 1, [Node([97], 0, [], Zeros(length))], []);
    OneFileSizes(length);
    var written := Image(root, Zeros(16));
    img := written.image;
    ImageReadable(root, Zeros(16), img);
    var mounted := Load(Drive(0, true, 1, img));
    v := mounted.value;
    var found, i := Lookup(img, v, [97], root);
    FoundChild(img, v, root, found.value, i);
    file := found.value;
  }

  lemma OneFileSizes(length: nat)
    requires length % 8 == 0 && length <= LIMIT32 - 56
    ensures var root := Node([], 1, [Node([97], 0, [], Zeros(length))], []);
            Packs(root) && Unmasked(root) && Recorded(root) == length + 32
  {
    var file := Node([97], 0, [], Zeros(length));
    var root := Node([], 1, [file], []);
    assert Recorded(file) == 16 + length;
    assert RecordedUpTo(root, 1) == Recorded(file);
  }

  /** A read of a whole file of 128 MiB and a word, at once, panics. */
  method LargeRead() returns (r: Option<seq<nat>>)
    ensures r == None
  {
    hide Readable, Recorded;
    var root, img, _, file := OneFile(BUFFER + 8);
    r := Read(img, file, 0, BUFFER + 8, root.children[0]);
  }

  /** A read of 2^64 - 1 bytes from the second byte of an eight-byte file panics instead of being cut. */
  method WrappingRead() returns (r: Option<seq<nat>>)
    ensures r == None
  {
    hide Readable, Recorded;
    var root, img, _, file := OneFile(8);
    r := Read(img, file, 1, MODULUS64 - 1, root.children[0]);
  }

  /** A directory that ends exactly at 4 GiB has a file and lists nothing. */
  method BoundaryListing() returns (names: seq<seq<nat>>, found: Option<VNode>)
    ensures names == [] && found.Some?
  {
    hide Readable, Recorded;
    var root, img, v, _ := OneFile(LIMIT32 - 56);
    names := List(img, v, root);
    var f, i := Lookup(img, v, [97], root);
    assert root.children[0].name == [97];
    found := f;
  }
}
