/** A specification decoder: the inflate side of section 3.2 of RFC 1951 and the
    wrapper of section 2.2 of RFC 1950. Nothing here is taken from the encoder. */
module Inflate {
  import opened Bits
  import opened PrefixCodes

  /** The outcome of reading one thing off the front of a bit string. */
  datatype Parse<+T> = Fail | Ok(val: T, rest: bits)

  function ReadBits(s: bits, n: nat): (r: Parse<nat>)
    ensures r.Ok? ==> |r.rest| + n == |s|
  {
    if |s| < n then Fail else Ok(LsbVal(s[..n]), s[n..])
  }

  /** The first symbol from n on whose code word starts the bits. */
  function FindSymbol(lens: seq<nat>, s: bits, n: nat): (r: Parse<nat>)
    requires n <= |lens|
    ensures r.Ok? ==> r.val < |lens| && |r.rest| < |s|
    decreases |lens| - n
  {
    if n == |lens| then Fail
    else if lens[n] > 0 && CodeWord(lens, n) <= s then Ok(n, s[lens[n]..])
    else FindSymbol(lens, s, n + 1)
  }

  function ReadSymbol(lens: seq<nat>, s: bits): (r: Parse<nat>)
    ensures r.Ok? ==> r.val < |lens| && |r.rest| < |s|
  {
    FindSymbol(lens, s, 0)
  }

  // -- section 3.2.5: lengths and distances -----------------------------------------

  const LENGTH_BASE: seq<nat> :=
    [3, 4, 5, 6, 7, 8, 9, 10, 11, 13, 15, 17, 19, 23, 27, 31, 35, 43, 51, 59, 67, 83, 99, 115, 131, 163, 195, 227, 258]
  const LENGTH_EXTRA: seq<nat> :=
    [0, 0, 0, 0, 0, 0, 0, 0, 1, 1, 1, 1, 2, 2, 2, 2, 3, 3, 3, 3, 4, 4, 4, 4, 5, 5, 5, 5, 0]
  const DIST_BASE: seq<nat> :=
    [1, 2, 3, 4, 5, 7, 9, 13, 17, 25, 33, 49, 65, 97, 129, 193, 257, 385, 513, 769, 1025, 1537, 2049, 3073, 4097,
     6145, 8193, 12289, 16385, 24577]
  const DIST_EXTRA: seq<nat> :=
    [0, 0, 0, 0, 1, 1, 2, 2, 3, 3, 4, 4, 5, 5, 6, 6, 7, 7, 8, 8, 9, 9, 10, 10, 11, 11, 12, 12, 13, 13]

  /** Repeats len bytes from dist back; the source may overlap the copy. */
  function CopyMatch(out: seq<byte>, dist: nat, len: nat): (r: seq<byte>)
    requires 1 <= dist <= |out|
    ensures |r| == |out| + len
    decreases len
  {
    if len == 0 then out else CopyMatch(out + [out[|out| - dist]], dist, len - 1)
  }

  /** A match: the extra bits of the length, the distance code and its extra bits. */
  function ReadMatch(dl: seq<nat>, code: nat, s: bits): (r: Parse<(nat, nat)>)
    requires code < 29
    ensures r.Ok? ==> |r.rest| <= |s| && r.val.0 >= 1
  {
    match ReadBits(s, LENGTH_EXTRA[code])
    case Fail => Fail
    case Ok(e, s1) =>
      match ReadSymbol(dl, s1)
      case Fail => Fail
      case Ok(d, s2) =>
        if d >= 30 then Fail
        else
          match ReadBits(s2, DIST_EXTRA[d])
          case Fail => Fail
          case Ok(x, s3) => Ok((DIST_BASE[d] + x, LENGTH_BASE[code] + e), s3)
  }

  /** The compressed data of one block, up to the end-of-block symbol. */
  function ReadTokens(ll: seq<nat>, dl: seq<nat>, s: bits, out: seq<byte>): (r: Parse<seq<byte>>)
    ensures r.Ok? ==> |r.rest| < |s|
    decreases |s|
  {
    match ReadSymbol(ll, s)
    case Fail => Fail
    case Ok(sym, s1) =>
      if sym < 256 then ReadTokens(ll, dl, s1, out + [sym])
      else if sym == 256 then Ok(out, s1)
      else if sym > 285 then Fail
      else
        match ReadMatch(dl, sym - 257, s1)
        case Fail => Fail
        case Ok(m, s2) =>
          if m.0 > |out| then Fail
          else ReadTokens(ll, dl, s2, CopyMatch(out, m.0, m.1))
  }

  // -- section 3.2.7: the code lengths of a dynamic block ------------------------------

  const CL_ORDER: seq<nat> := [16, 17, 18, 0, 8, 7, 9, 6, 10, 5, 11, 4, 12, 3, 13, 2, 14, 1, 15]

  /** The lengths of the code length code, in their peculiar order. */
  function ReadClLens(s: bits, i: nat, count: nat, acc: seq<nat>): (r: Parse<seq<nat>>)
    requires i <= count <= 19 && |acc| == 19
    ensures r.Ok? ==> |r.rest| <= |s| && |r.val| == 19
    decreases count - i
  {
    if i == count then Ok(acc, s)
    else
      match ReadBits(s, 3)
      case Fail => Fail
      case Ok(v, s1) => ReadClLens(s1, i + 1, count, acc[CL_ORDER[i] := v])
  }

  function Repeat(x: nat, n: nat): (s: seq<nat>)
    ensures |s| == n
  {
    if n == 0 then [] else Repeat(x, n - 1) + [x]
  }

  /** Reads code lengths until there are total of them. */
  function ReadLens(cl: seq<nat>, total: nat, acc: seq<nat>, s: bits): (r: Parse<seq<nat>>)
    ensures r.Ok? ==> |r.rest| <= |s| && |r.val| == total
    decreases |s|
  {
    if |acc| == total then Ok(acc, s)
    else if |acc| > total then Fail
    else
      match ReadSymbol(cl, s)
      case Fail => Fail
      case Ok(sym, s1) =>
        if sym < 16 then ReadLens(cl, total, acc + [sym], s1)
        else if sym == 16 then
          if acc == [] then Fail
          else
            match ReadBits(s1, 2)
            case Fail => Fail
            case Ok(e, s2) => ReadLens(cl, total, acc + Repeat(acc[|acc| - 1], 3 + e), s2)
        else if sym == 17 then
          match ReadBits(s1, 3)
          case Fail => Fail
          case Ok(e, s2) => ReadLens(cl, total, acc + Repeat(0, 3 + e), s2)
        else if sym == 18 then
          match ReadBits(s1, 7)
          case Fail => Fail
          case Ok(e, s2) => ReadLens(cl, total, acc + Repeat(0, 11 + e), s2)
        else Fail
  }

  /** The lengths do not ask for more codes than there is room for. */
  function Fits(lens: seq<nat>): bool
  {
    (forall n :: 0 <= n < |lens| ==> lens[n] <= MAX_BITS) && Kraft(lens, MAX_BITS) <= Pow2(MAX_BITS)
  }

  /** The header of a dynamic block: the two codes' lengths. Codes that do not fit are refused. */
  function ReadHeader(s: bits): (r: Parse<(seq<nat>, seq<nat>)>)
    ensures r.Ok? ==> |r.rest| <= |s|
  {
    match ReadBits(s, 5)
    case Fail => Fail
    case Ok(hlit, s1) =>
      match ReadBits(s1, 5)
      case Fail => Fail
      case Ok(hdist, s2) =>
        match ReadBits(s2, 4)
        case Fail => Fail
        case Ok(hclen, s3) =>
          if hclen > 15 then Fail
          else
            match ReadClLens(s3, 0, hclen + 4, Repeat(0, 19))
            case Fail => Fail
            case Ok(cl, s4) =>
              if !Fits(cl) then Fail
              else
                match ReadLens(cl, hlit + 257 + hdist + 1, [], s4)
                case Fail => Fail
                case Ok(lens, s5) =>
                  var ll, dl := lens[..hlit + 257], lens[hlit + 257..];
                  if Fits(ll) && Fits(dl) then Ok((ll, dl), s5) else Fail
  }

  // -- section 3.2.6: the fixed codes ---------------------------------------------------

  function FixedL(): (s: seq<nat>)
    ensures |s| == 288
  {
    seq(288, n => if n < 144 then 8 else if n < 256 then 9 else if n < 280 then 7 else 8)
  }

  function FixedD(): (s: seq<nat>)
    ensures |s| == 32
  {
    seq(32, _ => 5)
  }

  // -- section 3.2.4: stored blocks, and the block sequence ------------------------------

  function ReadBytes(s: bits, n: nat, out: seq<byte>): (r: Parse<seq<byte>>)
    ensures r.Ok? ==> |r.rest| <= |s|
    decreases n
  {
    if n == 0 then Ok(out, s)
    else
      match ReadBits(s, 8)
      case Fail => Fail
      case Ok(b, s1) => if b < 256 then ReadBytes(s1, n - 1, out + [b]) else Fail
  }

  /** A stored block: skip to a byte boundary, then a length, its complement and the bytes.
      The whole stream is a whole number of bytes, so what is left says where the boundary is. */
  function ReadStored(s: bits, out: seq<byte>): (r: Parse<seq<byte>>)
    ensures r.Ok? ==> |r.rest| <= |s|
  {
    ReadRaw(s[|s| % 8..], out)
  }

  function ReadRaw(s: bits, out: seq<byte>): (r: Parse<seq<byte>>)
    ensures r.Ok? ==> |r.rest| <= |s|
  {
    match ReadBits(s, 16)
    case Fail => Fail
    case Ok(len, s1) =>
      match ReadBits(s1, 16)
      case Fail => Fail
      case Ok(nlen, s2) => if len + nlen == 65535 then ReadBytes(s2, len, out) else Fail
  }

  function ReadBlock(kind: nat, s: bits, out: seq<byte>): (r: Parse<seq<byte>>)
    ensures r.Ok? ==> |r.rest| <= |s|
  {
    if kind == 0 then ReadStored(s, out)
    else if kind == 1 then ReadTokens(FixedL(), FixedD(), s, out)
    else if kind == 2 then
      match ReadHeader(s)
      case Fail => Fail
      case Ok(codes, s1) => ReadTokens(codes.0, codes.1, s1, out)
    else Fail
  }

  /** Reads blocks up to and including one marked final. */
  function ReadBlocks(s: bits, out: seq<byte>): (r: Parse<seq<byte>>)
    ensures r.Ok? ==> |r.rest| < |s|
    decreases |s|
  {
    match ReadBits(s, 3)
    case Fail => Fail
    case Ok(h, s1) =>
      match ReadBlock(h / 2, s1, out)
      case Fail => Fail
      case Ok(out2, s2) => if h % 2 == 1 then Ok(out2, s2) else ReadBlocks(s2, out2)
  }

  // -- RFC 1950: the wrapper ---------------------------------------------------------------

  /** The two halves of the Adler-32 checksum, section 8.2 of RFC 1950. */
  function AdlerParts(data: seq<byte>): (r: (nat, nat))
    ensures r.0 < 65521 && r.1 < 65521
  {
    if data == [] then (1, 0)
    else
      var (a, b) := AdlerParts(data[..|data| - 1]);
      var a2 := (a + data[|data| - 1]) % 65521;
      (a2, (b + a2) % 65521)
  }

  function Adler32(data: seq<byte>): nat
  {
    AdlerParts(data).1 * 65536 + AdlerParts(data).0
  }

  /** The bytes of the data added up. */
  function ByteSum(data: seq<byte>): nat
  {
    if data == [] then 0 else data[0] as int + ByteSum(data[1..])
  }

  /** The bytes added up, each times the number of bytes from it to the end. */
  function WeightedSum(data: seq<byte>): nat
  {
    if data == [] then 0 else |data| * data[0] as int + WeightedSum(data[1..])
  }

  lemma {:induction false} SumsMore(data: seq<byte>, b: byte)
    ensures ByteSum(data + [b]) == ByteSum(data) + b as int
    ensures WeightedSum(data + [b]) == WeightedSum(data) + ByteSum(data) + b as int
  {
    if data != [] {
      assert (data + [b])[1..] == data[1..] + [b];
      SumsMore(data[1..], b);
    } else {
      assert (data + [b])[1..] == [];
    }
  }

  lemma AddMod(x: nat, y: nat)
    ensures (x % 65521 + y) % 65521 == (x + y) % 65521
  {
  }

  lemma AdlerStep(d: seq<byte>, b: byte)
    ensures AdlerParts(d + [b]).0 == (AdlerParts(d).0 + b as int) % 65521
    ensures AdlerParts(d + [b]).1 == (AdlerParts(d).1 + AdlerParts(d + [b]).0) % 65521
  {
    assert (d + [b])[..|d|] == d;
  }

  lemma AdlerNone()
    ensures AdlerParts([]) == (1, 0) && ByteSum([]) == 0 == WeightedSum([])
  {
  }

  lemma SumMod(x: nat, y: nat)
    ensures (x % 65521 + y % 65521) % 65521 == (x + y) % 65521
  {
    AddMod(x, y % 65521);
    AddMod(y, x);
  }

  /** In one expression each: one and the bytes, and the sum of all values the first went through. */
  lemma {:induction false} AdlerSums(data: seq<byte>)
    ensures AdlerParts(data).0 == (1 + ByteSum(data)) % 65521
    ensures AdlerParts(data).1 == (|data| + WeightedSum(data)) % 65521
  {
    hide *;
    if data == [] {
      AdlerNone();
    } else {
      var d, b := data[..|data| - 1], data[|data| - 1];
      assert data == d + [b];
      AdlerSums(d);
      AdlerStep(d, b);
      SumsMore(d, b);
      AddMod(1 + ByteSum(d), b as int);
      SumMod(|d| + WeightedSum(d), 1 + ByteSum(data));
    }
  }

  /** Four bytes, most significant first. */
  function BigEndian(v: nat): (s: seq<byte>)
    ensures |s| == 4
  {
    [v / 0x100_0000 % 256, v / 0x1_0000 % 256, v / 0x100 % 256, v % 256]
  }

  datatype Option<+T> = None | Some(value: T)

  /** Method 8 with a window of at most 32K, no preset dictionary, and valid check bits. */
  predicate HeaderOk(cmf: nat, flg: nat)
  {
    cmf % 16 == 8 && cmf / 16 <= 7 && (cmf * 256 + flg) % 31 == 0 && flg / 32 % 2 == 0
  }

  /** What follows the deflate data: zero to seven bits of padding, then the checksum, then nothing. */
  predicate TrailerOk(s: bits, out: seq<byte>)
  {
    s[|s| % 8..] == BytesBits(BigEndian(Adler32(out)))
  }

  /** Decodes a zlib stream: header checks, deflate data, and the checksum of the result. */
  function ZlibDecode(data: seq<byte>): Option<seq<byte>>
  {
    if |data| < 2 || !HeaderOk(data[0], data[1]) then None
    else
      match ReadBlocks(BytesBits(data[2..]), [])
      case Fail => None
      case Ok(out, s) => if TrailerOk(s, out) then Some(out) else None
  }
}
