/** A table index that fits one leaf page: sorted entries spliced in place. */
module IndexLeaves {
  import opened Arith
  import opened Bits
  import opened LittleEndian
  import opened BTreeLookup

  datatype LeafResult = Done | NoRoom | BadPage | BadSlot | NoEntry

  // -- the leaf as a sequence of entries ---------------------------------------------------------

  /** Where a key goes: before the first greater one, so behind all its equals. */
  function Place(es: seq<Entry>, key: Key, cmp: (Key, Key) -> int): (n: nat)
    ensures n <= |es| && (n < |es| ==> cmp(es[n].key, key) > 0)
    ensures forall i :: 0 <= i < n ==> cmp(es[i].key, key) <= 0
  {
    if es == [] || cmp(es[0].key, key) > 0 then 0
    else
      var n := Place(es[1..], key, cmp);
      assert forall i :: 1 <= i < n + 1 ==> es[i] == es[1..][i - 1];
      n + 1
  }

  function Inserted(es: seq<Entry>, e: Entry, cmp: (Key, Key) -> int): (r: seq<Entry>)
    ensures |r| == |es| + 1
  {
    var n := Place(es, e.key, cmp);
    es[..n] + [e] + es[n..]
  }

  lemma PlacedAbove(es: seq<Entry>, key: Key, cmp: (Key, Key) -> int)
    requires Preorder(cmp) && Sorted(es, cmp)
    ensures forall i :: Place(es, key, cmp) <= i < |es| ==> cmp(es[i].key, key) > 0
  {
    hide Place, Preorder;
    var n := Place(es, key, cmp);
    forall i | n <= i < |es|
      ensures cmp(es[i].key, key) > 0
    {
      if i > n { Above(cmp, es[n].key, es[i].key, key); }
    }
  }

  lemma InsertedAt(es: seq<Entry>, e: Entry, cmp: (Key, Key) -> int, i: nat)
    requires i <= |es|
    ensures var n := Place(es, e.key, cmp);
      Inserted(es, e, cmp)[i] == if i < n then es[i] else if i == n then e else es[i - 1]
  {
    hide Place;
  }

  /** A sorted leaf stays sorted. */
  lemma InsertedSorted(es: seq<Entry>, e: Entry, cmp: (Key, Key) -> int)
    requires Preorder(cmp) && Sorted(es, cmp)
    ensures Sorted(Inserted(es, e, cmp), cmp)
  {
    hide Place, Inserted, Preorder;
    var n, r := Place(es, e.key, cmp), Inserted(es, e, cmp);
    PlacedAbove(es, e.key, cmp);
    forall i, j | 0 <= i < j < |r|
      ensures cmp(r[i].key, r[j].key) <= 0
    {
      InsertedAt(es, e, cmp, i);
      InsertedAt(es, e, cmp, j);
      if i == n { TotalOrder(cmp, es[j - 1].key, e.key); }
    }
  }

  lemma TotalOrder(cmp: (Key, Key) -> int, a: Key, b: Key)
    requires Preorder(cmp)
    ensures cmp(a, b) > 0 <==> cmp(b, a) < 0
    ensures cmp(a, b) == 0 <==> cmp(b, a) == 0
  {
  }

  lemma WithoutSorted(es: seq<Entry>, i: nat, cmp: (Key, Key) -> int)
    requires Sorted(es, cmp) && i < |es|
    ensures Sorted(Without(es, i), cmp)
  {
    var r := Without(es, i);
    assert forall k :: 0 <= k < |r| ==> r[k] == es[if k < i then k else k + 1];
  }

  // -- the leaf as bytes ---------------------------------------------------------------------------

  /** Where entry i starts. */
  function Offset(i: nat, stride: nat): nat
  {
    18 + i * stride
  }

  lemma OffsetNext(i: nat, stride: nat)
    ensures Offset(i + 1, stride) == Offset(i, stride) + stride && Offset(0, stride) == 18
  {
    MulDist(i, 1, stride);
  }

  lemma OffsetsApart(i: nat, j: nat, stride: nat)
    requires i < j
    ensures Offset(i, stride) + stride <= Offset(j, stride)
  {
    MulPositive(j - i - 1, stride);
    MulDist(j - i - 1, i + 1, stride);
    OffsetNext(i, stride);
  }

  function DecodeEntry(c: seq<byte>, ks: nat): Entry
    requires |c| == ks + 6
  {
    Entry(c[..ks], ReadInt32(c, ks), ReadLe16(c, ks + 4))
  }

  function EncodeEntry(e: Entry): seq<byte>
    requires 0 <= e.pageNo < 0x8000_0000 && e.itemNo < 65536
  {
    e.key + Le32(e.pageNo) + Le16(e.itemNo)
  }

  lemma EntryRoundTrip(e: Entry)
    requires 0 <= e.pageNo < 0x8000_0000 && e.itemNo < 65536
    ensures |EncodeEntry(e)| == |e.key| + 6 && DecodeEntry(EncodeEntry(e), |e.key|) == e
  {
    hide Le32, ReadLe32;
    var c, ks := EncodeEntry(e), |e.key|;
    assert c[..ks] == e.key && c[ks..ks + 4] == Le32(e.pageNo);
    Le32Reads(e.pageNo);
    assert Le32(e.pageNo)[0..4] == Le32(e.pageNo);
    ReadSame(c, ks, Le32(e.pageNo), 0);
    assert c[ks + 4] == e.itemNo % 256 && c[ks + 5] == e.itemNo / 256;
  }

  /** The bytes of entry i. */
  function Chunk(p: seq<byte>, i: nat, ks: nat): seq<byte>
  {
    if Offset(i, ks + 6) + ks + 6 <= |p| then p[Offset(i, ks + 6)..Offset(i, ks + 6) + ks + 6] else []
  }

  function EntryOf(p: seq<byte>, i: nat, ks: nat): Entry
  {
    if |Chunk(p, i, ks)| == ks + 6 then DecodeEntry(Chunk(p, i, ks), ks) else Entry([], 0, 0)
  }

  function Entries(p: seq<byte>, ks: nat): (es: seq<Entry>)
    requires |p| >= 18
    ensures |es| == ReadLe16(p, 14) && forall i :: 0 <= i < |es| ==> es[i] == EntryOf(p, i, ks)
  {
    seq(ReadLe16(p, 14), i requires 0 <= i < ReadLe16(p, 14) => EntryOf(p, i, ks))
  }

  /** The entries the header counts fit the page. */
  ghost predicate LeafOk(p: seq<byte>, ks: nat)
  {
    |p| >= 18 && ks > 0 && Offset(ReadLe16(p, 14), ks + 6) <= |p|
  }

  lemma ChunkSize(p: seq<byte>, ks: nat, i: nat)
    requires LeafOk(p, ks) && i < ReadLe16(p, 14)
    ensures |Chunk(p, i, ks)| == ks + 6 && Offset(i, ks + 6) + ks + 6 <= |p|
  {
    OffsetsApart(i, ReadLe16(p, 14), ks + 6);
  }

  // -- splicing ------------------------------------------------------------------------------------

  /** Page q is page p with the entry's bytes c put in as entry n and the later entries moved up. */
  ghost predicate SplicedIn(p: seq<byte>, q: seq<byte>, ks: nat, n: nat, c: seq<byte>)
  {
    && LeafOk(p, ks) && LeafOk(q, ks) && |q| == |p| && |c| == ks + 6
    && n <= ReadLe16(p, 14) && ReadLe16(q, 14) == ReadLe16(p, 14) + 1
    && SameStretch(p, q, Offset(0, ks + 6), Offset(0, ks + 6), n * (ks + 6))
    && Offset(n, ks + 6) + ks + 6 <= |q| && q[Offset(n, ks + 6)..Offset(n, ks + 6) + ks + 6] == c
    && SameStretch(p, q, Offset(n, ks + 6), Offset(n + 1, ks + 6), Offset(ReadLe16(p, 14), ks + 6) - Offset(n, ks + 6))
  }

  /** The m bytes of p from x on are those of q from y on. */
  ghost predicate SameStretch(p: seq<byte>, q: seq<byte>, x: nat, y: nat, m: int)
  {
    0 <= m && x + m <= |p| && y + m <= |q| && p[x..x + m] == q[y..y + m]
  }

  /** A piece of the same stretch, by its place in either page. */
  lemma StretchPart(p: seq<byte>, q: seq<byte>, x: nat, y: nat, m: int, i: nat, j: nat, l: nat)
    requires SameStretch(p, q, x, y, m) && x <= i && i + l <= x + m && j - y == i - x
    ensures p[i..i + l] == q[j..j + l]
  {
    SliceOfSlice(p, x, x + m, i - x, l);
    SliceOfSlice(q, y, y + m, j - y, l);
  }

  lemma ChunkBefore(p: seq<byte>, q: seq<byte>, ks: nat, n: nat, c: seq<byte>, i: nat)
    requires SplicedIn(p, q, ks, n, c) && i < n
    ensures Chunk(q, i, ks) == Chunk(p, i, ks)
  {
    hide LeafOk, ReadLe16;
    ChunkSize(p, ks, i);
    ChunkSize(q, ks, i);
    OffsetsApart(i, n, ks + 6);
    OffsetNext(0, ks + 6);
    if i > 0 { OffsetsApart(0, i, ks + 6); }
    var at := Offset(i, ks + 6);
    StretchPart(p, q, 18, 18, n * (ks + 6), at, at, ks + 6);
  }

  lemma ChunkBehind(p: seq<byte>, q: seq<byte>, ks: nat, n: nat, c: seq<byte>, i: nat)
    requires SplicedIn(p, q, ks, n, c) && n <= i < ReadLe16(p, 14)
    ensures Chunk(q, i + 1, ks) == Chunk(p, i, ks)
  {
    hide LeafOk, ReadLe16;
    ChunkSize(p, ks, i);
    ChunkSize(q, ks, i + 1);
    OffsetsApart(i, ReadLe16(p, 14), ks + 6);
    OffsetNext(i, ks + 6);
    OffsetNext(n, ks + 6);
    if n < i { OffsetsApart(n, i, ks + 6); }
    var m := Offset(ReadLe16(p, 14), ks + 6) - Offset(n, ks + 6);
    StretchPart(p, q, Offset(n, ks + 6), Offset(n + 1, ks + 6), m, Offset(i, ks + 6), Offset(i + 1, ks + 6), ks + 6);
  }

  /** The entries of the page after the splice. */
  lemma SplicedEntries(p: seq<byte>, q: seq<byte>, ks: nat, n: nat, c: seq<byte>)
    requires SplicedIn(p, q, ks, n, c)
    ensures n <= |Entries(p, ks)|
    ensures Entries(q, ks) == Entries(p, ks)[..n] + [DecodeEntry(c, ks)] + Entries(p, ks)[n..]
  {
    hide Chunk, DecodeEntry, SameStretch, ReadLe16;
    var es, fs := Entries(p, ks), Entries(q, ks);
    forall i | 0 <= i < |fs|
      ensures fs[i] == (es[..n] + [DecodeEntry(c, ks)] + es[n..])[i]
    {
      if i < n {
        ChunkBefore(p, q, ks, n, c, i);
      } else if i > n {
        ChunkBehind(p, q, ks, n, c, i - 1);
      } else {
        ChunkAt(p, q, ks, n, c);
      }
    }
  }

  lemma ChunkAt(p: seq<byte>, q: seq<byte>, ks: nat, n: nat, c: seq<byte>)
    requires SplicedIn(p, q, ks, n, c)
    ensures Chunk(q, n, ks) == c
  {
  }

  // -- the bytes of a splice -------------------------------------------------------------------------

  /** One more entry fits. */
  ghost predicate HasRoom(p: seq<byte>, ks: nat)
  {
    |p| >= 18 && Offset(ReadLe16(p, 14) + 1, ks + 6) <= |p|
  }

  function WithCount(p: seq<byte>, n: nat): (q: seq<byte>)
    requires |p| >= 18 && n < 65536
    ensures |q| == |p| && ReadLe16(q, 14) == n
  {
    Patched(p, 14, Le16(n))
  }

  lemma PatchedStretch(p: seq<byte>, at: nat, b: seq<byte>, i: nat, j: nat)
    requires at + |b| <= |p| && i <= j <= |p| && (j <= at || at + |b| <= i)
    ensures Patched(p, at, b)[i..j] == p[i..j] && Patched(p, at, b)[at..at + |b|] == b
  {
  }

  /** Inserting: the later entries move up, the entry goes into the gap, the count goes up. */
  function InsertedBytes(p: seq<byte>, ks: nat, n: nat, c: seq<byte>): (q: seq<byte>)
    requires LeafOk(p, ks) && HasRoom(p, ks) && n <= ReadLe16(p, 14) < 65535 && |c| == ks + 6
    ensures |q| == |p|
  {
    var count := ReadLe16(p, 14);
    var off, end := Offset(n, ks + 6), Offset(count, ks + 6);
    SpliceBounds(p, ks, n);
    WithCount(Patched(Patched(p, off + ks + 6, p[off..end]), off, c), count + 1)
  }

  lemma SpliceBounds(p: seq<byte>, ks: nat, n: nat)
    requires LeafOk(p, ks) && n <= ReadLe16(p, 14)
    ensures |p| >= 18 && Offset(n, ks + 6) <= Offset(ReadLe16(p, 14), ks + 6) <= |p|
    ensures Offset(n + 1, ks + 6) == Offset(n, ks + 6) + ks + 6 && Offset(n, ks + 6) >= 18
    ensures Offset(ReadLe16(p, 14) + 1, ks + 6) == Offset(ReadLe16(p, 14), ks + 6) + ks + 6
    ensures n < ReadLe16(p, 14) ==> Offset(n + 1, ks + 6) <= Offset(ReadLe16(p, 14), ks + 6)
    ensures n < ReadLe16(p, 14) ==> Offset(ReadLe16(p, 14) - 1, ks + 6) == Offset(ReadLe16(p, 14), ks + 6) - ks - 6
  {
    hide ReadLe16;
    var count := ReadLe16(p, 14);
    OffsetNext(n, ks + 6);
    OffsetNext(count, ks + 6);
    MulPositive(n, ks + 6);
    if n < count {
      OffsetsApart(n, count, ks + 6);
      OffsetNext(count - 1, ks + 6);
    }
  }

  /** Removing: the later entries move down and the count goes down; the last entry's bytes stay. */
  function RemovedBytes(p: seq<byte>, ks: nat, n: nat): (q: seq<byte>)
    requires LeafOk(p, ks) && n < ReadLe16(p, 14)
    ensures |q| == |p|
  {
    var count := ReadLe16(p, 14);
    var off, end := Offset(n, ks + 6), Offset(count, ks + 6);
    SpliceBounds(p, ks, n);
    WithCount(Patched(p, off, p[off + ks + 6..end]), count - 1)
  }

  lemma InsertSplices(p: seq<byte>, ks: nat, n: nat, c: seq<byte>)
    requires LeafOk(p, ks) && HasRoom(p, ks) && n <= ReadLe16(p, 14) < 65535 && |c| == ks + 6
    ensures SplicedIn(p, InsertedBytes(p, ks, n, c), ks, n, c)
  {
    hide *;
    SpliceBounds(p, ks, n);
    var count := ReadLe16(p, 14);
    HasRoomIs(p, ks);
    var off, end := Offset(n, ks + 6), Offset(count, ks + 6);
    var a := Patched(p, off + ks + 6, p[off..end]);
    var b := Patched(a, off, c);
    InsertStretches(p, a, b, WithCount(b, count + 1), off, end, ks + 6, c, count);
    InsertedBytesIs(p, ks, n, c);
    MakeSplicedIn(p, InsertedBytes(p, ks, n, c), ks, n, c, count);
  }

  lemma InsertedBytesIs(p: seq<byte>, ks: nat, n: nat, c: seq<byte>)
    requires LeafOk(p, ks) && HasRoom(p, ks) && n <= ReadLe16(p, 14) < 65535 && |c| == ks + 6
    ensures var off, end := Offset(n, ks + 6), Offset(ReadLe16(p, 14), ks + 6);
      && off <= end && end + ks + 6 <= |p|
      && InsertedBytes(p, ks, n, c)
         == WithCount(Patched(Patched(p, off + ks + 6, p[off..end]), off, c), ReadLe16(p, 14) + 1)
  {
    hide WithCount, Patched;
    SpliceBounds(p, ks, n);
  }

  lemma MakeSplicedIn(p: seq<byte>, q: seq<byte>, ks: nat, n: nat, c: seq<byte>, count: nat)
    requires LeafOk(p, ks) && HasRoom(p, ks) && |q| == |p| && |c| == ks + 6
    requires n <= count == ReadLe16(p, 14) && ReadLe16(q, 14) == count + 1
    requires var off, end := Offset(n, ks + 6), Offset(count, ks + 6);
      && 18 <= off <= end && end + ks + 6 <= |p|
      && q[18..off] == p[18..off] && q[off..off + ks + 6] == c && q[off + ks + 6..end + ks + 6] == p[off..end]
    ensures SplicedIn(p, q, ks, n, c)
  {
    hide ReadLe16;
    OffsetNext(0, ks + 6);
    OffsetNext(n, ks + 6);
    OffsetProduct(n, ks + 6);
    hide Offset;
  }

  lemma OffsetProduct(n: nat, stride: nat)
    ensures Offset(n, stride) == 18 + n * stride
  {
  }

  lemma InsertStretches(p: seq<byte>, a: seq<byte>, b: seq<byte>, q: seq<byte>, off: nat, end: nat, stride: nat,
      c: seq<byte>, count: nat)
    requires 18 <= off <= end && end + stride <= |p| && |c| == stride && count < 65535
    requires a == Patched(p, off + stride, p[off..end]) && b == Patched(a, off, c) && q == WithCount(b, count + 1)
    ensures |q| == |p| && q[18..off] == p[18..off] && q[off..off + stride] == c
    ensures q[off + stride..end + stride] == p[off..end]
  {
    hide Patched, Le16;
    PatchedStretch(p, off + stride, p[off..end], 18, off);
    PatchedStretch(a, off, c, 18, off);
    PatchedStretch(a, off, c, off + stride, end + stride);
    PatchedStretch(b, 14, Le16(count + 1), 18, off);
    PatchedStretch(b, 14, Le16(count + 1), off, off + stride);
    PatchedStretch(b, 14, Le16(count + 1), off + stride, end + stride);
  }

  lemma RemoveSplices(p: seq<byte>, ks: nat, n: nat)
    requires LeafOk(p, ks) && n < ReadLe16(p, 14)
    ensures SplicedIn(RemovedBytes(p, ks, n), p, ks, n, Chunk(p, n, ks))
    ensures RemovedBytes(p, ks, n)[Offset(ReadLe16(p, 14) - 1, ks + 6)..] == p[Offset(ReadLe16(p, 14) - 1, ks + 6)..]
  {
    hide ReadLe16, Offset, Patched, Le16, RemovedBytes;
    SpliceBounds(p, ks, n);
    OffsetNext(0, ks + 6);
    ChunkSize(p, ks, n);
    RemovedStretches(p, ks, n);
    OffsetProduct(n, ks + 6);
  }

  lemma RemovedStretches(p: seq<byte>, ks: nat, n: nat)
    requires LeafOk(p, ks) && n < ReadLe16(p, 14)
    ensures var q, off, end := RemovedBytes(p, ks, n), Offset(n, ks + 6), Offset(ReadLe16(p, 14), ks + 6);
      && 18 <= off && off + ks + 6 <= end <= |p| == |q| && ReadLe16(q, 14) == ReadLe16(p, 14) - 1
      && q[18..off] == p[18..off] && q[off..end - ks - 6] == p[off + ks + 6..end]
      && q[end - ks - 6..] == p[end - ks - 6..]
  {
    hide ReadLe16, Offset, Patched, Le16;
    var count := ReadLe16(p, 14);
    var off, end := Offset(n, ks + 6), Offset(count, ks + 6);
    SpliceBounds(p, ks, n);
    var a := Patched(p, off, p[off + ks + 6..end]);
    RemoveStretches(p, a, WithCount(a, count - 1), off, end, ks + 6, count);
  }

  lemma RemoveStretches(p: seq<byte>, a: seq<byte>, q: seq<byte>, off: nat, end: nat, stride: nat, count: nat)
    requires 18 <= off && off + stride <= end <= |p| && 0 < count < 65536
    requires a == Patched(p, off, p[off + stride..end]) && q == WithCount(a, count - 1)
    ensures |q| == |p| && q[18..off] == p[18..off] && q[off..end - stride] == p[off + stride..end]
    ensures q[end - stride..] == p[end - stride..]
  {
    hide Patched, Le16;
    PatchedStretch(p, off, p[off + stride..end], 18, off);
    PatchedStretch(p, off, p[off + stride..end], end - stride, |p|);
    PatchedStretch(a, 14, Le16(count - 1), 18, off);
    PatchedStretch(a, 14, Le16(count - 1), off, end - stride);
    PatchedStretch(a, 14, Le16(count - 1), end - stride, |p|);
  }

  /** Inserting is what happened to the entries: the new one behind everything not above it. */
  lemma InsertedEntries(p: seq<byte>, ks: nat, e: Entry, cmp: (Key, Key) -> int)
    requires LeafOk(p, ks) && HasRoom(p, ks) && ReadLe16(p, 14) < 65535
    requires |e.key| == ks && 0 <= e.pageNo < 0x8000_0000 && e.itemNo < 65536
    ensures |EncodeEntry(e)| == ks + 6
    ensures var q := InsertedBytes(p, ks, Place(Entries(p, ks), e.key, cmp), EncodeEntry(e));
      LeafOk(q, ks) && Entries(q, ks) == Inserted(Entries(p, ks), e, cmp)
  {
    hide ReadLe16, Place, InsertedBytes, EncodeEntry, DecodeEntry, Offset;
    var n := Place(Entries(p, ks), e.key, cmp);
    EntryRoundTrip(e);
    InsertSplices(p, ks, n, EncodeEntry(e));
    SplicedEntries(p, InsertedBytes(p, ks, n, EncodeEntry(e)), ks, n, EncodeEntry(e));
  }

  lemma RemovedEntries(p: seq<byte>, ks: nat, n: nat)
    requires LeafOk(p, ks) && n < ReadLe16(p, 14)
    ensures LeafOk(RemovedBytes(p, ks, n), ks) && Entries(RemovedBytes(p, ks, n), ks) == Without(Entries(p, ks), n)
  {
    hide ReadLe16, RemovedBytes, DecodeEntry, Offset;
    RemoveSplices(p, ks, n);
    SplicedEntries(RemovedBytes(p, ks, n), p, ks, n, Chunk(p, n, ks));
  }

  lemma PlaceUnique(es: seq<Entry>, key: Key, cmp: (Key, Key) -> int, n: nat)
    requires n <= |es| && (n < |es| ==> cmp(es[n].key, key) > 0)
    requires forall i :: 0 <= i < n ==> cmp(es[i].key, key) <= 0
    ensures n == Place(es, key, cmp)
  {
    hide Place;
    var m := Place(es, key, cmp);
    assert n >= m && m >= n;
  }

  predicate PointsAt(e: Entry, pageNo: int, slot: int)
  {
    e.pageNo == pageNo && e.itemNo == slot
  }

  /** The first entry pointing at a record. */
  function FirstAt(es: seq<Entry>, pageNo: int, slot: int): (n: nat)
    ensures n <= |es| && (n < |es| ==> PointsAt(es[n], pageNo, slot))
    ensures forall i :: 0 <= i < n ==> !PointsAt(es[i], pageNo, slot)
  {
    if es == [] || PointsAt(es[0], pageNo, slot) then 0
    else
      var n := FirstAt(es[1..], pageNo, slot);
      assert forall i :: 1 <= i < n + 1 ==> es[i] == es[1..][i - 1];
      n + 1
  }

  lemma FirstAtUnique(es: seq<Entry>, pageNo: int, slot: int, n: nat)
    requires n <= |es| && (n < |es| ==> PointsAt(es[n], pageNo, slot))
    requires forall i :: 0 <= i < n ==> !PointsAt(es[i], pageNo, slot)
    ensures n == FirstAt(es, pageNo, slot)
  {
    hide FirstAt, PointsAt;
    var m := FirstAt(es, pageNo, slot);
    assert n >= m && m >= n;
  }

  lemma EntrySize(e: Entry)
    requires 0 <= e.pageNo < 0x8000_0000 && e.itemNo < 65536
    ensures |EncodeEntry(e)| == |e.key| + 6
  {
  }

  function LeafCount(p: seq<byte>): nat
    requires |p| >= 18
  {
    ReadLe16(p, 14)
  }

  lemma FewEntries(p: seq<byte>, ks: nat)
    requires LeafOk(p, ks) && |p| < 0x1_0000
    ensures ReadLe16(p, 14) < 65535
  {
    hide ReadLe16;
    OffsetProduct(ReadLe16(p, 14), ks + 6);
    MulPositive(ReadLe16(p, 14), ks + 5);
    MulDist(1, ks + 5, ReadLe16(p, 14));
  }

  lemma HasRoomIs(p: seq<byte>, ks: nat)
    requires LeafOk(p, ks)
    ensures HasRoom(p, ks) <==> Offset(ReadLe16(p, 14) + 1, ks + 6) <= |p|
  {
    hide Offset;
  }

  lemma RoomBack(p: seq<byte>, ks: nat, n: nat)
    requires LeafOk(p, ks) && n < ReadLe16(p, 14)
    ensures HasRoom(RemovedBytes(p, ks, n), ks)
  {
    hide Offset;
  }

  // -- the leaf page ----------------------------------------------------------------------------------

  class IndexLeaf {
    const payload: array<byte>
    const keySize: nat
    const cmp: (Key, Key) -> int

    constructor (payload: array<byte>, keySize: nat, cmp: (Key, Key) -> int)
      ensures this.payload == payload && this.keySize == keySize && this.cmp == cmp
    {
      this.payload, this.keySize, this.cmp := payload, keySize, cmp;
    }

    /** What buffering a leaf checks, and a page size that fits 16 bits. */
    ghost predicate Valid()
      reads payload
    {
      LeafOk(payload[..], keySize) && payload.Length < 0x1_0000
    }

    ghost function Contents(): seq<Entry>
      reads payload
      requires Valid()
    {
      Entries(payload[..], keySize)
    }

    lemma PayloadSize()
      requires Valid()
      ensures payload.Length >= 18
    {
    }

    method Room() returns (ok: bool)
      requires Valid()
      ensures ok <==> HasRoom(payload[..], keySize)
    {
      var p := payload[..];
      OffsetNext(ReadLe16(p, 14), keySize + 6);
      ok := Offset(ReadLe16(p, 14), keySize + 6) + keySize + 6 <= payload.Length;
    }

    /** Whether some entry ties with the key. */
    method HasKey(key: Key) returns (found: bool)
      requires Valid()
      ensures found <==> Has(Contents(), key, cmp)
    {
      hide Offset, Chunk, DecodeEntry;
      var p := payload[..];
      for i := 0 to ReadLe16(p, 14)
        invariant forall k :: 0 <= k < i ==> cmp(Contents()[k].key, key) != 0
      {
        if cmp(EntryOf(p, i, keySize).key, key) == 0 {
          assert cmp(Contents()[i].key, key) == 0;
          return true;
        }
      }
      found := false;
    }

    /** The position of the first greater key, or the end. */
    method FindPlace(key: Key) returns (pos: nat)
      requires Valid()
      ensures pos == Place(Contents(), key, cmp)
    {
      hide Offset, Chunk, DecodeEntry, Place, LeafOk;
      PayloadSize();
      var p := payload[..];
      var count := LeafCount(p);
      pos := count;
      for i := 0 to count
        invariant pos == count
        invariant forall k :: 0 <= k < i ==> cmp(Entries(p, keySize)[k].key, key) <= 0
      {
        if cmp(EntryOf(p, i, keySize).key, key) > 0 {
          pos := i;
          break;
        }
      }
      PlaceUnique(Entries(p, keySize), key, cmp, pos);
    }

    /** Splices one entry in at its sorted position. */
    method Insert(key: Key, pageNo: int, slot: int) returns (r: LeafResult)
      requires Valid() && |key| == keySize
      modifies payload
      ensures Valid()
      ensures r == if !old(HasRoom(payload[..], keySize)) then NoRoom
                   else if !(0 <= pageNo < 0x8000_0000) then BadPage
                   else if !(0 <= slot < 65536) then BadSlot else Done
      ensures r != Done ==> payload[..] == old(payload[..])
      ensures r == Done ==> Contents() == Inserted(old(Contents()), Entry(key, pageNo, slot), cmp)
    {
      hide *;
      var room := Room();
      if !room { return NoRoom; }
      if pageNo < 0 || pageNo > 0x7fff_ffff { return BadPage; }
      if slot < 0 || slot > 65535 { return BadSlot; }
      var pos := FindPlace(key);
      var e := Entry(key, pageNo, slot);
      EntrySize(e);
      ValidIs();
      InsertedEntries(payload[..], keySize, e, cmp);
      SpliceIn(pos, EncodeEntry(e));
      ValidIs();
      r := Done;
    }

    /** Moves the later entries up, writes the entry into the gap and counts it. */
    method SpliceIn(pos: nat, c: seq<byte>)
      requires LeafOk(payload[..], keySize) && HasRoom(payload[..], keySize)
      requires pos <= LeafCount(payload[..]) < 65535 && |c| == keySize + 6
      modifies payload
      ensures payload[..] == InsertedBytes(old(payload[..]), keySize, pos, c)
    {
      hide Offset, Patched, LeafOk;
      var p := payload[..];
      var count := LeafCount(p);
      SpliceBounds(p, keySize, pos);
      HasRoomIs(p, keySize);
      var off, end := Offset(pos, keySize + 6), Offset(count, keySize + 6);
      MoveBytes(payload, off + keySize + 6, off, end - off);
      PutBytes(payload, off, c);
      PutBytes(payload, 14, Le16(count + 1));
    }

    /** What the leaf's bytes have to be, and what they hold. */
    lemma ValidIs()
      ensures Valid() <==> LeafOk(payload[..], keySize) && payload.Length < 0x1_0000
      ensures Valid() ==> |payload[..]| >= 18 && Contents() == Entries(payload[..], keySize)
      ensures Valid() ==> LeafCount(payload[..]) == ReadLe16(payload[..], 14) == |Contents()| < 65535
    {
      hide Offset, Chunk, DecodeEntry, ReadLe16;
      if Valid() { FewEntries(payload[..], keySize); }
    }

    /** Splices out the first entry pointing at a record. */
    method Remove(pageNo: int, slot: int) returns (r: LeafResult)
      requires Valid()
      modifies payload
      ensures Valid()
      ensures r == if FirstAt(old(Contents()), pageNo, slot) < |old(Contents())| then Done else NoEntry
      ensures r == NoEntry ==> payload[..] == old(payload[..])
      ensures r == Done ==> Contents() == Without(old(Contents()), FirstAt(old(Contents()), pageNo, slot))
      ensures r == Done ==>
        payload[..] == RemovedBytes(old(payload[..]), keySize, FirstAt(old(Contents()), pageNo, slot))
      ensures r == Done ==> HasRoom(payload[..], keySize)
    {
      hide Offset, Chunk, DecodeEntry, Patched, LeafOk, Without, FirstAt, PointsAt;
      PayloadSize();
      var p := payload[..];
      var count := LeafCount(p);
      var pos := count;
      for i := 0 to count
        invariant pos == count
        invariant forall k :: 0 <= k < i ==> !PointsAt(Entries(p, keySize)[k], pageNo, slot)
      {
        if PointsAt(EntryOf(p, i, keySize), pageNo, slot) {
          pos := i;
          break;
        }
      }
      FirstAtUnique(Entries(p, keySize), pageNo, slot, pos);
      if pos == count { return NoEntry; }
      RemovedEntries(p, keySize, pos);
      SpliceBounds(p, keySize, pos);
      var off, end := Offset(pos, keySize + 6), Offset(count, keySize + 6);
      MoveBytes(payload, off, off + keySize + 6, end - off - keySize - 6);
      PutBytes(payload, 14, Le16(count - 1));
      RoomBack(p, keySize, pos);
      r := Done;
    }
  }
}
