/** Little-endian integers in byte sequences, and copying bytes within a page. */
module LittleEndian {
  import opened Bits

  /** The four bytes of a 32-bit number, low byte first. */
  function Le32(v: nat): (b: seq<byte>)
    requires v < 0x1_0000_0000
    ensures |b| == 4
  {
    [v % 256, v / 0x100 % 256, v / 0x1_0000 % 256, v / 0x100_0000]
  }

  function ReadLe32(b: seq<byte>, at: nat): (v: nat)
    requires at + 4 <= |b|
    ensures v < 0x1_0000_0000
  {
    b[at] as int + 0x100 * b[at + 1] as int + 0x1_0000 * b[at + 2] as int + 0x100_0000 * b[at + 3] as int
  }

  function ReadLe16(b: seq<byte>, at: nat): (v: nat)
    requires at + 2 <= |b|
    ensures v < 65536
  {
    b[at] as int + 256 * b[at + 1] as int
  }

  function Le16(v: nat): (b: seq<byte>)
    requires v < 65536
    ensures |b| == 2
  {
    [v % 256, v / 256]
  }

  /** A 32-bit pattern as a signed number. */
  function Signed32(v: nat): int
  {
    if v >= 0x8000_0000 then v - 0x1_0000_0000 else v
  }

  /** The 32-bit pattern of a number, truncated. */
  function Unsigned32(v: int): (r: nat)
    ensures r < 0x1_0000_0000
  {
    v % 0x1_0000_0000
  }

  function ReadInt32(b: seq<byte>, at: nat): int
    requires at + 4 <= |b|
  {
    Signed32(ReadLe32(b, at))
  }

  lemma Le32Reads(v: nat)
    requires v < 0x1_0000_0000
    ensures ReadLe32(Le32(v), 0) == v
  {
    var b := Le32(v);
    assert b[0] as int == v % 256 && b[1] as int == v / 256 % 256;
    assert b[2] as int == v / 0x1_0000 % 256 && b[3] as int == v / 0x100_0000;
    FourDigits(v);
  }

  lemma FourDigits(v: nat)
    ensures v == v % 256 + 0x100 * (v / 0x100 % 256) + 0x1_0000 * (v / 0x1_0000 % 256) + 0x100_0000 * (v / 0x100_0000)
  {
    assert v / 0x1_0000 == v / 0x100 / 256;
    assert v / 0x100_0000 == v / 0x1_0000 / 256;
  }

  /** Writing a number read from a stream gives its bytes again. */
  lemma Le32Writes(b: seq<byte>, at: nat)
    requires at + 4 <= |b|
    ensures Le32(ReadLe32(b, at)) == b[at..at + 4]
  {
    var v, s := ReadLe32(b, at), b[at..at + 4];
    assert s[0] == b[at] && s[1] == b[at + 1] && s[2] == b[at + 2] && s[3] == b[at + 3];
    FourDigits(v);
    Digits(s[0], s[1], s[2], s[3]);
  }

  lemma Digits(b0: byte, b1: byte, b2: byte, b3: byte)
    ensures var v := b0 as int + 0x100 * b1 as int + 0x1_0000 * b2 as int + 0x100_0000 * b3 as int;
      v % 256 == b0 && v / 0x100 % 256 == b1 && v / 0x1_0000 % 256 == b2 && v / 0x100_0000 == b3
  {
    var v := b0 as int + 0x100 * b1 as int + 0x1_0000 * b2 as int + 0x100_0000 * b3 as int;
    assert v / 0x100 == b1 as int + 0x100 * b2 as int + 0x1_0000 * b3 as int;
    assert v / 0x1_0000 == b2 as int + 0x100 * b3 as int;
  }

  /** A number survives truncation to 32 bits exactly when it fits. */
  lemma SignedRoundTrip(v: int)
    ensures Signed32(Unsigned32(v)) == v <==> -0x8000_0000 <= v < 0x8000_0000
  {
  }

  lemma ReadSame(a: seq<byte>, i: nat, b: seq<byte>, j: nat)
    requires i + 4 <= |a| && j + 4 <= |b| && a[i..i + 4] == b[j..j + 4]
    ensures ReadLe32(a, i) == ReadLe32(b, j)
  {
    var s, t := a[i..i + 4], b[j..j + 4];
    assert a[i] == s[0] && a[i + 1] == s[1] && a[i + 2] == s[2] && a[i + 3] == s[3];
    assert b[j] == t[0] && b[j + 1] == t[1] && b[j + 2] == t[2] && b[j + 3] == t[3];
  }

  lemma SignedRead(b: seq<byte>, at: nat)
    requires at + 4 <= |b| && ReadInt32(b, at) >= 0
    ensures ReadLe32(b, at) == ReadInt32(b, at)
  {
  }

  // -- bytes of a page --------------------------------------------------------------------------------

  /** A sequence with the stretch from i on replaced. */
  function Patched<T>(p: seq<T>, i: nat, b: seq<T>): (r: seq<T>)
    requires i + |b| <= |p|
    ensures |r| == |p|
    ensures forall k :: 0 <= k < |p| ==> r[k] == if i <= k < i + |b| then b[k - i] else p[k]
  {
    p[..i] + b + p[i + |b|..]
  }

  method PutBytes(payload: array<byte>, at: nat, b: seq<byte>)
    requires at + |b| <= payload.Length
    modifies payload
    ensures payload[..] == Patched(old(payload[..]), at, b)
  {
    forall k | 0 <= k < |b| { payload[at + k] := b[k]; }
  }

  /** Moves n bytes within the page; the stretches may overlap. */
  method MoveBytes(payload: array<byte>, to: nat, from: nat, n: nat)
    requires to + n <= payload.Length && from + n <= payload.Length
    modifies payload
    ensures payload[..] == Patched(old(payload[..]), to, old(payload[from..from + n]))
  {
    forall i | 0 <= i < n { payload[to + i] := payload[from + i]; }
  }
}
