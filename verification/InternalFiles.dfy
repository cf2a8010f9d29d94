/** Internal files as a table's schema is kept in one: framed, compressed, written across a page chain, and read back
    by the readers that follow the chain and by those that read its first page alone. */
module InternalFiles {
  import opened Bits
  import opened Inflate
  import opened LittleEndian
  import opened PageChains
  import D = Deflating

  const HEADER_SIZE: nat := 10
  const MAX_INT32: nat := 0x7fff_ffff
  // how far an internal file may expand: by this ratio, or to this size if that is more, and never further than this
  const RATIO: nat := 64
  const FLOOR: nat := 65536
  const HARD_MAX: nat := 16777216
  const SLACK: nat := 4096

  /** The most bytes a compressed internal file of n bytes may yield. */
  function Ceiling(n: nat): nat
  {
    var c := if n * RATIO >= FLOOR then n * RATIO else FLOOR;
    if c <= HARD_MAX then c else HARD_MAX
  }

  /** So content is taken up to 64 KiB from any payload, up to 64 times the payload beyond, and never over 16 MiB. */
  lemma CeilingMeans(n: nat, size: nat)
    ensures size <= Ceiling(n) <==> size <= 0x100_0000 && (size <= 0x1_0000 || size <= 64 * n)
  {
  }

  function InflateLimit(n: nat, declared: nat): Option<nat>
  {
    if declared > Ceiling(n) then None
    else Some(if declared + SLACK <= Ceiling(n) then declared + SLACK else Ceiling(n))
  }

  function InflateLimited(c: seq<byte>, declared: nat): Option<seq<byte>>
  {
    match InflateLimit(|c|, declared)
    case None => None
    case Some(limit) =>
      match ZlibDecode(c)
      case None => None
      case Some(raw) => if |raw| > limit then None else Some(raw)
  }

  /** The content of the internal file at the start of the bytes. */
  function DecompressInternalFile(data: seq<byte>): Option<seq<byte>>
  {
    if |data| < HEADER_SIZE then None
    else
      var header: nat, size := data[0], ReadLe32(data, 1);
      if header < HEADER_SIZE || header + size > |data| then None
      else
        var c := data[header..header + size];
        if data[9] == 0 then Some(c)
        else if data[9] == 1 then InflateLimited(c, ReadLe32(data, 5))
        else None
  }

  /** A payload with the header of an internal file. */
  function Framed(payload: seq<byte>, size: nat, algo: byte): (r: seq<byte>)
    requires |payload| <= MAX_INT32 && size <= MAX_INT32
    ensures |r| == HEADER_SIZE + |payload|
  {
    [10] + Le32(|payload|) + Le32(size) + [algo] + payload
  }

  /** What the compressor made of the content. */
  ghost predicate Packs(payload: seq<byte>, raw: seq<byte>, algo: byte)
  {
    if algo == 0 then payload == raw else algo == 1 && ZlibDecode(payload) == Some(raw)
  }

  /** The content is no longer than a reader lets a payload of n bytes expand. */
  predicate Within(n: nat, size: nat, algo: byte)
  {
    algo == 0 || size <= Ceiling(n)
  }

  lemma FramedFields(payload: seq<byte>, size: nat, algo: byte, rest: seq<byte>)
    requires |payload| <= MAX_INT32 && size <= MAX_INT32
    ensures var d := Framed(payload, size, algo) + rest;
      && |d| == HEADER_SIZE + |payload| + |rest| && d[0] == 10 && d[9] == algo
      && ReadLe32(d, 1) == |payload| && ReadLe32(d, 5) == size && d[10..10 + |payload|] == payload
  {
    hide Le32, ReadLe32;
    var a, b := Le32(|payload|), Le32(size);
    var d := Framed(payload, size, algo) + rest;
    Le32Reads(|payload|);
    Le32Reads(size);
    assert d[1..5] == a[0..4] && d[5..9] == b[0..4];
    ReadSame(d, 1, a, 0);
    ReadSame(d, 5, b, 0);
  }

  /** A framed file gives its content back if and only if it is within bounds; what follows does not matter. */
  lemma FrameReads(payload: seq<byte>, raw: seq<byte>, algo: byte, rest: seq<byte>)
    requires |payload| <= MAX_INT32 && |raw| <= MAX_INT32 && Packs(payload, raw, algo)
    ensures DecompressInternalFile(Framed(payload, |raw|, algo) + rest)
      == if Within(|payload|, |raw|, algo) then Some(raw) else None
  {
    hide ReadLe32, Framed, ZlibDecode, Ceiling;
    FramedFields(payload, |raw|, algo, rest);
  }

  /** Frames the content, compressed or as it is; an unknown algorithm is refused, and so is what 31 bits cannot
      count. The frame gives the content back if and only if it is within bounds. */
  method CompressInternalFile(raw: seq<byte>, algo: byte) returns (r: Option<seq<byte>>, ghost payload: seq<byte>)
    ensures r.None? <==> algo > 1 || |payload| > MAX_INT32 || |raw| > MAX_INT32
    ensures r.Some? ==> Packs(payload, raw, algo) && |payload| <= MAX_INT32 && |raw| <= MAX_INT32
    ensures r.Some? ==> r == Some(Framed(payload, |raw|, algo))
    ensures r.Some? ==> algo <= 1 && |r.value| >= HEADER_SIZE
    ensures r.Some? ==>
      DecompressInternalFile(r.value) == if Within(|r.value| - HEADER_SIZE, |raw|, algo) then Some(raw) else None
  {
    hide ZlibDecode, Framed, DecompressInternalFile, Within;
    var p := raw;
    payload := raw;
    if algo > 1 { return None, payload; }
    if algo == 1 {
      var packed, _, _ := D.Compress(raw);
      p := packed;
    }
    payload := p;
    if |p| > MAX_INT32 || |raw| > MAX_INT32 { return None, payload; }
    r := Some(Framed(p, |raw|, algo));
    FrameReads(p, raw, algo, []);
    assert r.value + [] == r.value;
  }

  /** A reader that is given less than the whole file refuses. */
  lemma FrameCut(payload: seq<byte>, size: nat, algo: byte, n: nat)
    requires |payload| <= MAX_INT32 && size <= MAX_INT32 && n < HEADER_SIZE + |payload|
    ensures DecompressInternalFile(Framed(payload, size, algo)[..n]) == None
  {
    hide ReadLe32, Framed, ZlibDecode;
    if n >= HEADER_SIZE {
      var d, e := Framed(payload, size, algo), Framed(payload, size, algo)[..n];
      FramedFields(payload, size, algo, []);
      assert d + [] == d;
      assert e[1..5] == d[1..5];
      ReadSame(e, 1, d, 1);
    }
  }

  lemma FramedSize(payload: seq<byte>, size: nat, algo: byte)
    requires |payload| <= MAX_INT32 && size <= MAX_INT32
    ensures var d := Framed(payload, size, algo); |d| == 10 + |payload| && FileSize(d) == |d|
  {
    hide ReadLe32, Framed;
    FramedFields(payload, size, algo, []);
    var d := Framed(payload, size, algo);
    assert d + [] == d;
  }

  // -- on pages -----------------------------------------------------------------------------------------

  /** Reads a schema from the first page of its chain alone. */
  method ReadSchemaStream(f: ChainFile, page: nat) returns (r: Option<seq<byte>>)
    ensures r == if page < |f.pages| then DecompressInternalFile(f.pages[page].payload) else None
  {
    hide DecompressInternalFile;
    if page >= |f.pages| { return None; }
    var data := f.pages[page].payload;
    if |data| < HEADER_SIZE {
      TooShort(data);
      return None;
    }
    r := DecompressInternalFile(data);
  }

  lemma TooShort(data: seq<byte>)
    requires |data| < HEADER_SIZE
    ensures DecompressInternalFile(data) == None
  {
  }

  /** Reads an internal file through its chain. */
  method ReadThroughChain(f: ChainFile, first: nat) returns (r: Option<seq<byte>>)
    requires f.Valid()
    ensures forall q, payload, raw, algo: byte ::
      StoredFile(f, first, q, payload, raw, algo) ==>
        r == if |q| <= 64 && Within(|payload|, |raw|, algo) then Some(raw) else None
  {
    hide *;
    var data := f.ReadInternalFilePages(first);
    r := if data.None? then None else DecompressInternalFile(data.value);
    forall q, payload, raw, algo: byte | StoredFile(f, first, q, payload, raw, algo)
      ensures r == if |q| <= 64 && Within(|payload|, |raw|, algo) then Some(raw) else None
    {
      StoredParts(f, first, q, payload, raw, algo);
      var file := Framed(payload, |raw|, algo);
      if data.Some? {
        var rest := data.value[|file|..];
        assert data.value == file + rest;
        FrameReads(payload, raw, algo, rest);
      }
    }
  }

  /** The framed content lies on exactly the pages it needs. */
  ghost predicate StoredFile(f: ChainFile, first: nat, q: seq<nat>, payload: seq<byte>, raw: seq<byte>, algo: byte)
    reads f
  {
    && |payload| <= MAX_INT32 && |raw| <= MAX_INT32 && Packs(payload, raw, algo)
    && Stored(f.pages, first, q, Framed(payload, |raw|, algo), f.cap)
  }

  lemma StoredParts(f: ChainFile, first: nat, q: seq<nat>, payload: seq<byte>, raw: seq<byte>, algo: byte)
    requires StoredFile(f, first, q, payload, raw, algo)
    ensures |payload| <= MAX_INT32 && |raw| <= MAX_INT32 && Packs(payload, raw, algo)
    ensures Stored(f.pages, first, q, Framed(payload, |raw|, algo), f.cap)
  {
    hide Stored, Packs, Framed;
  }

  /** The first page of a stored file starts with the file's first bytes, as many as it holds. */
  lemma FirstOfStored(pg: seq<PageBuf>, first: nat, q: seq<nat>, data: seq<byte>, cap: nat)
    requires Stored(pg, first, q, data, cap) && Padded(pg, cap)
    ensures first < |pg| && |pg[first].payload| == cap
    ensures if |data| <= cap then pg[first].payload[..|data|] == data else pg[first].payload == data[..cap]
    ensures |data| <= cap <==> |q| == 1
  {
    hide FileSize;
    ContentSize(pg, q, cap);
    FirstPage(pg, q, cap);
    PagesForBounds(|data|, cap);
    OnePageIff(|data|, cap);
    StartsWith(Content(pg, q), pg[first].payload, data);
  }

  lemma StartsWith(whole: seq<byte>, page: seq<byte>, data: seq<byte>)
    requires |page| <= |whole| && whole[..|page|] == page && |data| <= |whole| && whole[..|data|] == data
    ensures if |data| <= |page| then page[..|data|] == data else page == data[..|page|]
  {
  }

  lemma OnePageIff(n: nat, cap: nat)
    requires cap > 0 && n > 0
    ensures n <= cap <==> PagesFor(n, cap) == 1
  {
    PagesForBounds(n, cap);
  }

  /** Reading a stored file from its first page alone gives its content if and only if it takes one page and is within
      bounds. */
  lemma ReadFromFirst(pg: seq<PageBuf>, first: nat, q: seq<nat>, payload: seq<byte>, raw: seq<byte>, algo: byte,
                      cap: nat)
    requires |payload| <= MAX_INT32 && |raw| <= MAX_INT32 && Packs(payload, raw, algo)
    requires Stored(pg, first, q, Framed(payload, |raw|, algo), cap) && Padded(pg, cap)
    ensures first < |pg|
    ensures DecompressInternalFile(pg[first].payload)
      == if |q| == 1 && Within(|payload|, |raw|, algo) then Some(raw) else None
  {
    hide *;
    var file := Framed(payload, |raw|, algo);
    FirstOfStored(pg, first, q, file, cap);
    FramedSize(payload, |raw|, algo);
    var page := pg[first].payload;
    if |q| == 1 {
      assert page == file + page[|file|..];
      FrameReads(payload, raw, algo, page[|file|..]);
    } else {
      FrameCut(payload, |raw|, algo, cap);
    }
  }

  /** Writes a schema over the chain of the old one and reads it back both ways. Following the chain gives it back if
      and only if it takes at most 64 pages and is within bounds, the first page alone if and only if it takes one. */
  method WriteThenReadSchema(f: ChainFile, first: nat, raw: seq<byte>, ghost p: seq<nat>)
    returns (ok: bool, byPage: Option<seq<byte>>, byChain: Option<seq<byte>>, ghost payload: seq<byte>)
    requires f.Valid() && f.cap >= 10 && ChainFrom(f.pages, first, p) && f.InUse(p)
    modifies f, f.maps, f.maps.pfs, f.maps.eam
    ensures f.Valid()
    ensures !ok ==>
      || |payload| > MAX_INT32 || |raw| > MAX_INT32 || |p| > 64
      || (PagesFor(10 + |payload|, f.cap) > |p| && f.MapsFull())
    ensures ok ==> Packs(payload, raw, 1)
    ensures ok ==>
      && byPage == (if PagesFor(10 + |payload|, f.cap) == 1 && |raw| <= Ceiling(|payload|) then Some(raw) else None)
      && byChain == (if PagesFor(10 + |payload|, f.cap) <= 64 && |raw| <= Ceiling(|payload|) then Some(raw) else None)
  {
    hide *;
    byPage, byChain := None, None;
    ghost var a, fa := f.pages, f.maps.pfs[..];
    ChainParts(a, first, p);
    var file;
    file, payload := CompressInternalFile(raw, 1);
    if file.None? { return false, None, None, payload; }
    FramedSize(payload, |raw|, 1);
    ghost var q;
    ok, q := f.WriteInternalFilePages(first, file.value, p);
    if ok {
      RewrittenStored(a, fa, p, f.pages, f.maps.pfs[..], q, f.cap, first, file.value);
      f.ValidParts();
      MakeStored(f, first, q, payload, raw, 1);
      ReadFromFirst(f.pages, first, q, payload, raw, 1, f.cap);
      WithinIs(|payload|, |raw|);
      byPage := ReadSchemaStream(f, first);
      byChain := ReadThroughChain(f, first);
    }
  }

  lemma MakeStored(f: ChainFile, first: nat, q: seq<nat>, payload: seq<byte>, raw: seq<byte>, algo: byte)
    requires |payload| <= MAX_INT32 && |raw| <= MAX_INT32 && Packs(payload, raw, algo)
    requires Stored(f.pages, first, q, Framed(payload, |raw|, algo), f.cap)
    ensures StoredFile(f, first, q, payload, raw, algo)
  {
    hide Stored, Packs, Framed;
  }

  lemma WithinIs(n: nat, size: nat)
    ensures Within(n, size, 1) <==> size <= Ceiling(n)
  {
  }

  /** Nothing longer than the readers' bound for a page is ever read from one page, and nothing longer than their hard
      limit from any number of pages. */
  lemma TooLongToRead(n: nat, size: nat, cap: nat)
    requires cap >= 10
    ensures size > HARD_MAX ==> size > Ceiling(n)
    ensures size > FLOOR && size > RATIO * cap ==> !(PagesFor(10 + n, cap) == 1 && size <= Ceiling(n))
  {
    OnePageIff(10 + n, cap);
  }
}
