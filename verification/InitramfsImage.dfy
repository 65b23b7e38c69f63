/** The initial file system image: how the build tool lays a tree of nodes out in bytes. Bytes are natural numbers. */
module InitramfsImage {
  import opened Arithmetic

  const LIMIT32 := 0x1_0000_0000
  const HEADER := 12

  /** A file or directory. */
  datatype Node = Node(name: seq<nat>, flags: nat, children: seq<Node>, data: seq<nat>)

  // ---------------------------------------------------------------------------
  // Little-endian fields and padding
  // ---------------------------------------------------------------------------

  function Little(n: nat, k: nat): (r: seq<nat>)
    ensures |r| == k
  {
    if k == 0 then [] else [n % 256] + Little(n / 256, k - 1)
  }

  function Number(s: seq<nat>): nat
  {
    if s == [] then 0 else s[0] + 256 * Number(s[1..])
  }

  lemma {:induction false} LittleNumber(n: nat, k: nat)
    requires n < Pow(256, k)
    ensures Number(Little(n, k)) == n
  {
    if k > 0 {
      LittleNumber(n / 256, k - 1);
      assert Little(n, k)[1..] == Little(n / 256, k - 1);
    }
  }

  /** Byte i of a field is its digit of weight 256^i. */
  lemma {:induction false} LittleByte(n: nat, k: nat, i: nat)
    requires i < k
    ensures Pow(256, i) > 0 && Little(n, k)[i] == n / Pow(256, i) % 256
  {
    PowPositive(256, i);
    if i > 0 {
      LittleByte(n / 256, k - 1, i - 1);
      PowPositive(256, i - 1);
      DivDiv(n, 256, Pow(256, i - 1));
    }
  }

  function Zeros(n: nat): (r: seq<nat>)
    ensures |r| == n
  {
    seq(n, _ => 0)
  }

  /** The next multiple of eight. */
  function Aligned(n: nat): nat
  {
    (n + 7) / 8 * 8
  }

  /** The same as the writer computes it, with a 32-bit mask. */
  function Masked(n: nat): nat
  {
    (n + 7) / 8 * 8 % LIMIT32
  }

  // ---------------------------------------------------------------------------
  // The writer
  // ---------------------------------------------------------------------------

  /** The size recorded for a node: its own bytes and those of its children. */
  function Recorded(n: Node): nat
    decreases n, |n.children| + 1
  {
    Masked(HEADER + |n.name|) + Masked(|n.data|) + RecordedUpTo(n, |n.children|)
  }

  function RecordedUpTo(n: Node, k: nat): nat
    requires k <= |n.children|
    decreases n, k
  {
    if k == 0 then 0 else RecordedUpTo(n, k - 1) + Recorded(n.children[k - 1])
  }

  /** The fixed fields, the name and its padding. */
  function Head(n: Node): seq<nat>
  {
    Little(Recorded(n), 4) + Little(|n.data|, 4) + Little(|n.children|, 2) + [n.flags, |n.name|] + n.name
      + Zeros(Aligned(HEADER + |n.name|) - HEADER - |n.name|)
  }

  function Body(n: Node): seq<nat>
  {
    n.data + Zeros(Aligned(|n.data|) - |n.data|)
  }

  /** The bytes of a node: head, contents, children in order. */
  function Bytes(n: Node): seq<nat>
    decreases n, |n.children| + 1
  {
    Head(n) + Body(n) + BytesUpTo(n, |n.children|)
  }

  function BytesUpTo(n: Node, k: nat): seq<nat>
    requires k <= |n.children|
    decreases n, k
  {
    if k == 0 then [] else BytesUpTo(n, k - 1) + Bytes(n.children[k - 1])
  }

  /** Every field of every node fits its width; otherwise packing raises an error. */
  predicate Packs(n: Node)
    decreases n
  {
    && Recorded(n) < LIMIT32 && |n.data| < LIMIT32 && |n.children| < 0x1_0000 && n.flags < 0x100 && |n.name| < 0x100
    && forall i :: 0 <= i < |n.children| ==> Packs(n.children[i])
  }

  /** No file comes within a word of 4 GiB, where the masked size wraps to nothing. */
  predicate Unmasked(n: Node)
    decreases n
  {
    |n.data| <= LIMIT32 - 8 && forall i :: 0 <= i < |n.children| ==> Unmasked(n.children[i])
  }

  datatype Written = Written(image: seq<nat>) | PackError

  /** The whole image: signature, identifier, root node, padding to a page. */
  function Image(root: Node, uuid: seq<nat>): Written
  {
    if Packs(root)
      then Written(Little(SIGNATURE, 8) + uuid + Bytes(root) + Zeros((4096 - Recorded(root) % 4096) % 4096))
      else PackError
  }

  const SIGNATURE := 0x007f534654494e49

  // ---------------------------------------------------------------------------
  // Lengths
  // ---------------------------------------------------------------------------

  lemma HeadLength(n: Node)
    ensures |Head(n)| == Aligned(HEADER + |n.name|) && |Body(n)| == Aligned(|n.data|)
  {}

  /** Where the fields of a node lie in its bytes, least significant byte first. */
  lemma NodeBytes(n: Node)
    ensures |Bytes(n)| >= 12 + |n.name|
    ensures forall i: nat :: i < 4 ==> Pow(256, i) > 0 && Bytes(n)[i] == Recorded(n) / Pow(256, i) % 256
    ensures forall i: nat :: i < 4 ==> Bytes(n)[4 + i] == |n.data| / Pow(256, i) % 256
    ensures Bytes(n)[8] == |n.children| % 256 && Bytes(n)[9] == |n.children| / 256 % 256
    ensures Bytes(n)[10] == n.flags && Bytes(n)[11] == |n.name| && Bytes(n)[12..12 + |n.name|] == n.name
  {
    hide Recorded;
    var size, data, count := Little(Recorded(n), 4), Little(|n.data|, 4), Little(|n.children|, 2);
    forall i: nat | i < 4 ensures Pow(256, i) > 0
      ensures size[i] == Recorded(n) / Pow(256, i) % 256 && data[i] == |n.data| / Pow(256, i) % 256 {
      LittleByte(Recorded(n), 4, i);
      LittleByte(|n.data|, 4, i);
    }
    HeadParts(n, size, data, count);
  }

  lemma HeadParts(n: Node, size: seq<nat>, data: seq<nat>, count: seq<nat>)
    requires size == Little(Recorded(n), 4) && data == Little(|n.data|, 4) && count == Little(|n.children|, 2)
    ensures |Bytes(n)| >= 12 + |n.name| && Bytes(n)[..4] == size && Bytes(n)[4..8] == data && Bytes(n)[8..10] == count
    ensures Bytes(n)[10] == n.flags && Bytes(n)[11] == |n.name| && Bytes(n)[12..12 + |n.name|] == n.name
  {
    hide Little, Recorded;
    var fields := size + data + count + [n.flags, |n.name|];
    var head := fields + n.name + Zeros(Aligned(HEADER + |n.name|) - HEADER - |n.name|);
    assert Head(n) == head;
    assert Bytes(n) == head + (Body(n) + BytesUpTo(n, |n.children|));
    assert head[..12] == fields;
  }

  /** The image starts with the characters INITFS, 0x7f and 0, then the identifier and the root; its end is padded. */
  lemma ImageBytes(root: Node, uuid: seq<nat>)
    requires Packs(root)
    ensures var img := Image(root, uuid).image;
            && |img| >= 8 + |uuid| + |Bytes(root)| && img[..8] == [0x49, 0x4e, 0x49, 0x54, 0x46, 0x53, 0x7f, 0x00]
            && img[8..8 + |uuid|] == uuid && img[8 + |uuid|..8 + |uuid| + |Bytes(root)|] == Bytes(root)
            && |img| < 8 + |uuid| + |Bytes(root)| + 4096
            && (|Bytes(root)| == Recorded(root) ==> (|img| - 8 - |uuid|) % 4096 == 0)
            && forall i :: 8 + |uuid| + |Bytes(root)| <= i < |img| ==> img[i] == 0
  {
    hide Bytes, Recorded;
    SignatureBytes();
  }

  lemma LittleTwo(n: nat, a: nat, b: nat)
    requires n == a + 256 * b && a < 256 && b < 256
    ensures Little(n, 2) == [a, b]
  {
    assert Little(b, 1) == [b] + Little(0, 0);
  }

  lemma LittleMore(n: nat, k: nat, a: nat, m: nat)
    requires m == a + 256 * n && a < 256
    ensures Little(m, k + 1) == [a] + Little(n, k)
  {}

  lemma SignatureBytes()
    ensures Little(SIGNATURE, 8) == [0x49, 0x4e, 0x49, 0x54, 0x46, 0x53, 0x7f, 0x00]
  {
    hide Little;
    LittleTwo(0x007f, 0x7f, 0x00);
    LittleMore(0x007f, 2, 0x53, 0x007f53);
    LittleMore(0x007f53, 3, 0x46, 0x007f5346);
    LittleMore(0x007f5346, 4, 0x54, 0x007f534654);
    LittleMore(0x007f534654, 5, 0x49, 0x007f53465449);
    LittleMore(0x007f53465449, 6, 0x4e, 0x007f534654494e);
    LittleMore(0x007f534654494e, 7, 0x49, 0x007f534654494e49);
  }

  /** The recorded size is the number of bytes written exactly when no size in the tree wraps. */
  lemma {:induction false} RecordedLength(n: Node)
    requires Packs(n)
    ensures |Bytes(n)| >= Recorded(n) && (|Bytes(n)| == Recorded(n) <==> Unmasked(n))
    decreases n, |n.children| + 1
  {
    hide Head, Body, Aligned, Masked, BytesUpTo, RecordedUpTo;
    HeadLength(n);
    NotMasked(HEADER + |n.name|);
    MaskedIff(|n.data|);
    UpToLength(n, |n.children|);
  }

  /** Below 4 GiB the mask drops nothing unless the aligned size reaches 4 GiB; then it drops everything. */
  lemma MaskedIff(n: nat)
    requires n < LIMIT32
    ensures Masked(n) <= Aligned(n) && (Masked(n) == Aligned(n) <==> n <= LIMIT32 - 8)
            && (n > LIMIT32 - 8 ==> Masked(n) == 0)
  {}

  /** Without wrapping, the recorded size is the plain sum. */
  lemma OwnSize(n: Node)
    requires Unmasked(n) && Packs(n)
    ensures Recorded(n) == Aligned(HEADER + |n.name|) + Aligned(|n.data|) + RecordedUpTo(n, |n.children|)
  {
    hide RecordedUpTo;
    NotMasked(HEADER + |n.name|);
    NotMasked(|n.data|);
  }

  lemma NotMasked(n: nat)
    requires n <= LIMIT32 - 8
    ensures Masked(n) == Aligned(n)
  {}

  lemma {:induction false} UpToLength(n: Node, k: nat)
    requires Packs(n) && k <= |n.children|
    ensures |BytesUpTo(n, k)| >= RecordedUpTo(n, k)
    ensures |BytesUpTo(n, k)| == RecordedUpTo(n, k) <==> forall i :: 0 <= i < k ==> Unmasked(n.children[i])
    decreases n, k
  {
    hide Head, Body, Bytes, Recorded, Unmasked;
    if k > 0 {
      UpToLength(n, k - 1);
      RecordedLength(n.children[k - 1]);
    }
  }

  /** A file within a word of 4 GiB, alone: its recorded size is that of its head. */
  lemma MaskedWraps(n: Node)
    requires LIMIT32 - 7 <= |n.data| < LIMIT32 && n.children == [] && |n.name| < 0x100 && n.flags < 0x100
    ensures Packs(n) && !Unmasked(n) && Recorded(n) == Aligned(HEADER + |n.name|) < |Bytes(n)|
  {
    HeadLength(n);
    MaskedIff(|n.data|);
  }

  // ---------------------------------------------------------------------------
  // Finding the parts again
  // ---------------------------------------------------------------------------

  /** The image holds the bytes of a node at an offset. */
  ghost predicate Holds(img: seq<nat>, o: nat, n: Node)
  {
    o + |Bytes(n)| <= |img| && img[o..o + |Bytes(n)|] == Bytes(n)
  }

  ghost function ChildOffset(o: nat, n: Node, k: nat): nat
    requires k <= |n.children|
  {
    o + Aligned(HEADER + |n.name|) + Aligned(|n.data|) + RecordedUpTo(n, k)
  }

  /** A part of a part. */
  lemma Within(img: seq<nat>, o: nat, whole: seq<nat>, a: seq<nat>, b: seq<nat>, c: seq<nat>)
    requires o + |whole| <= |img| && img[o..o + |whole|] == whole && whole == a + b + c
    ensures o + |a| + |b| <= |img| && img[o + |a|..o + |a| + |b|] == b
  {
    var w := img[o..o + |whole|];
    var lo, hi := o + |a|, o + |a| + |b|;
    forall i | 0 <= i < |b| ensures img[lo..hi][i] == b[i] {
      assert w[|a| + i] == whole[|a| + i] == b[i];
    }
  }

  lemma {:induction false} UpToSplit(n: Node, i: nat, k: nat)
    requires i < k <= |n.children|
    ensures exists rest :: BytesUpTo(n, k) == BytesUpTo(n, i) + Bytes(n.children[i]) + rest
    decreases k
  {
    hide Bytes;
    if i + 1 == k {
      assert BytesUpTo(n, k) == BytesUpTo(n, i) + Bytes(n.children[i]) + [];
    } else {
      UpToSplit(n, i, k - 1);
      var rest :| BytesUpTo(n, k - 1) == BytesUpTo(n, i) + Bytes(n.children[i]) + rest;
      assert BytesUpTo(n, k) == BytesUpTo(n, i) + Bytes(n.children[i]) + (rest + Bytes(n.children[k - 1]));
    }
  }

  /** Adding up the recorded sizes leads to each child. */
  lemma ChildHeld(img: seq<nat>, o: nat, n: Node, i: nat)
    requires Holds(img, o, n) && Unmasked(n) && Packs(n) && i < |n.children|
    ensures Holds(img, ChildOffset(o, n, i), n.children[i])
  {
    hide Head, Body, Unmasked, Packs, RecordedUpTo, BytesUpTo, Aligned;
    HeadLength(n);
    UpToLength(n, i);
    ChildrenUnmasked(n);
    UpToSplit(n, i, |n.children|);
    var rest :| BytesUpTo(n, |n.children|) == BytesUpTo(n, i) + Bytes(n.children[i]) + rest;
    var before := Head(n) + Body(n) + BytesUpTo(n, i);
    assert Bytes(n) == before + Bytes(n.children[i]) + rest;
    Within(img, o, Bytes(n), before, Bytes(n.children[i]), rest);
  }

  lemma ChildrenUnmasked(n: Node)
    requires Unmasked(n)
    ensures forall i :: 0 <= i < |n.children| ==> Unmasked(n.children[i])
  {}

  lemma DataHeld(img: seq<nat>, o: nat, n: Node)
    requires Holds(img, o, n)
    ensures var d := o + Aligned(HEADER + |n.name|); d + |n.data| <= |img| && img[d..d + |n.data|] == n.data
  {
    hide Head, Aligned, BytesUpTo;
    HeadLength(n);
    var pad := Zeros(Aligned(|n.data|) - |n.data|);
    var rest := pad + BytesUpTo(n, |n.children|);
    assert Bytes(n) == Head(n) + n.data + rest;
    Within(img, o, Bytes(n), Head(n), n.data, rest);
  }

}
