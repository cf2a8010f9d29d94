/** Pages on file: each page's payload runs into the block of the next, and is encrypted in place. */
module PageFile {
  import opened Arith
  import opened Inflate
  import opened CipherFeedback

  /** Where page n's header and payload lie on file: one block long, shifted by the header's place. */
  function Region(file: Bytes, ps: nat, n: nat): Bytes
  {
    if n * ps + 380 + ps <= |file| then file[n * ps + 380..n * ps + 380 + ps] else []
  }

  function HeaderIn(file: Bytes, ps: nat, n: nat): Bytes
  {
    var r := Region(file, ps, n);
    if |r| >= 40 then r[..40] else []
  }

  /** The payload a reader of page n sees. */
  ghost function PayloadIn(file: Bytes, ps: nat, n: nat, key: Option<BlockCipher>): Bytes
    requires key.Some? ==> key.value.Valid()
  {
    var r := Region(file, ps, n);
    if |r| >= 40 then PayloadOf(r, n, key) else []
  }

  function HasMarker(h: Bytes): bool
    requires |h| >= 40
  {
    h[0] == 0x41 && h[1] == 0x42 && h[2] == 0x53 && h[3] == 0x50
  }

  function HasCrc(h: Bytes): bool
    requires |h| >= 40
  {
    h[14] != 0 || h[15] != 0 || h[16] != 0 || h[17] != 0
  }

  /** What a reader makes of a region: page 0 and pages without a checksum are in the clear. */
  ghost function PayloadOf(region: Bytes, n: nat, key: Option<BlockCipher>): Bytes
    requires |region| >= 40 && (key.Some? ==> key.value.Valid())
  {
    if n > 0 && key.Some? && HasMarker(region[..40]) && HasCrc(region[..40])
    then Dec(key.value, Iv(key.value.size), region[40..])
    else region[40..]
  }

  /** Regions of different pages do not meet. */
  lemma RegionsApart(ps: nat, i: nat, j: nat)
    requires i < j
    ensures i * ps + 380 + ps <= j * ps + 380
  {
    MulPositive(j - i - 1, ps);
    MulDist(j - i - 1, i + 1, ps);
    MulDist(i, 1, ps);
  }

  lemma RegionInside(ps: nat, i: nat, total: nat, size: nat)
    requires i < total && size == total * ps + 380
    ensures i * ps + 380 + ps <= size
  {
    RegionsApart(ps, i, total);
  }

  /** Replacing one region leaves every other as it was. */
  lemma OtherRegion(a: Bytes, b: Bytes, ps: nat, i: nat, j: nat)
    requires i * ps + 380 + ps <= |a| && j * ps + 380 + ps <= |a| && i != j
    requires Outside(a, b, i * ps + 380, ps)
    ensures |b| == |a| && Region(b, ps, j) == Region(a, ps, j)
  {
    if i < j { RegionsApart(ps, i, j); } else { RegionsApart(ps, j, i); }
    OutsideSlice(a, b, i * ps + 380, ps, j * ps + 380, j * ps + 380 + ps);
  }

  lemma OutsideSlice(a: Bytes, b: Bytes, at: nat, n: nat, i: nat, j: nat)
    requires Outside(a, b, at, n) && i <= j <= |a| && (j <= at || at + n <= i)
    ensures |b| == |a| && a[i..j] == b[i..j]
  {
  }

  class PageStore {
    const file: array<bv8>
    const ps: nat
    const total: nat
    const key: Option<BlockCipher>
    const checksum: Bytes -> Bytes  // little-endian, four bytes

    ghost predicate Valid()
    {
      && ps >= 420 && file.Length == total * ps + 380
      && (key.Some? ==> key.value.Valid()) && forall b :: |checksum(b)| == 4
    }

    constructor (file: array<bv8>, ps: nat, total: nat, key: Option<BlockCipher>, checksum: Bytes -> Bytes)
      requires ps >= 420 && file.Length == total * ps + 380
      requires (key.Some? ==> key.value.Valid()) && forall b :: |checksum(b)| == 4
      ensures Valid() && this.file == file && this.ps == ps && this.total == total && this.key == key
    {
      this.file, this.ps, this.total, this.key, this.checksum := file, ps, total, key, checksum;
    }

    /** Copies a page's block and the front of the next out of the file. */
    method CopyOut(n: nat) returns (raw: array<bv8>)
      requires Valid() && n < total
      ensures fresh(raw) && raw.Length == ps + 380
      ensures n * ps + 380 + ps <= file.Length && raw[380..] == Region(file[..], ps, n)
    {
      RegionInside(ps, n, total, file.Length);
      var at := n * ps;
      raw := new bv8[ps + 380];
      forall i | 0 <= i < ps + 380 { raw[i] := file[at + i]; }
      assert raw[380..] == file[at + 380..at + 380 + ps];
    }

    /** Reads a page: its block and the front of the next, the payload decrypted. */
    method ReadPage(n: int) returns (r: Option<array<bv8>>)
      requires Valid()
      ensures r.None? <==> n < 0 || n >= total
      ensures r.Some? ==>
        && fresh(r.value) && r.value.Length == ps + 380
        && r.value[380..420] == HeaderIn(file[..], ps, n) && r.value[420..] == PayloadIn(file[..], ps, n, key)
    {
      hide *;
      if n < 0 || n >= total { return None; }
      var raw := CopyOut(n);
      ghost var region := Region(file[..], ps, n);
      ValidParts(n);
      SplitRaw(raw[..], region, ps);
      if n > 0 && key.Some? && HasMarker(raw[380..420]) && HasCrc(raw[380..420]) {
        Decrypted(region, n, key);
        ghost var r0 := raw[..];
        DecryptCTS(key.value, raw, 420, raw, 420, ps - 40);
        TailReplaced(r0, raw[..], ps, Dec(key.value, Iv(key.value.size), region[40..]));
      } else {
        InTheClear(region, n, key);
      }
      r := Some(raw);
    }

    /** Writes a page: its header and payload, one block from the header's place on. An encrypted page
        gets its checksum and is encrypted in the buffer, which is then spent. A page that would read
        back as clear is refused. */
    method WritePageBuf(raw: array<bv8>, number: nat, encrypted: bool) returns (ok: bool)
      requires Valid() && number < total && raw.Length == ps + 380 && raw != file
      modifies file, raw
      ensures ok <==> !encrypted || (!AllZero(checksum(old(raw[420..]))) && key.Some?)
      ensures !ok ==> file[..] == old(file[..])
      ensures forall j: nat :: j < total && j != number ==> PageKept(old(file[..]), file[..], ps, j, key)
      ensures ok ==>
        HeaderIn(file[..], ps, number) == WrittenHeader(old(raw[380..420]), encrypted, checksum(old(raw[420..])))
      ensures ok && encrypted && number > 0 && HasMarker(old(raw[380..420])) ==>
        PayloadIn(file[..], ps, number, key) == old(raw[420..])
      ensures ok && !encrypted ==>
        || (number > 0 && key.Some? && HasMarker(old(raw[380..420])) && HasCrc(old(raw[380..420])))
        || PayloadIn(file[..], ps, number, key) == old(raw[420..])
    {
      hide *;
      ValidParts(number);
      ChecksumSize(raw[420..]);
      ghost var h, p, f0 := raw[380..420], raw[420..], file[..];
      if encrypted {
        var crc := checksum(raw[420..]);
        if AllZero(crc) || key.None? {
          AllKept(f0, ps, key);
          return false;
        }
        Seal(raw, crc);
        SealedRaw(raw[..], h, crc, key.value, p, ps);
      } else {
        PlainRaw(raw[..], h, p, ps);
      }
      ghost var region := raw[380..];
      PutRegion(raw, number);
      AfterWrite(f0, file[..], ps, number, total, region, key);
      if encrypted {
        SealedReads(h, checksum(p), key.value, p, number, key);
      } else {
        ClearReads(h, p, number, key);
      }
      WrittenIs(h, encrypted, checksum(p));
      ok := true;
    }

    /** Puts the checksum into the header and encrypts the payload in place. */
    method Seal(raw: array<bv8>, crc: Bytes)
      requires Valid() && raw.Length == ps + 380 && |crc| == 4 && key.Some?
      modifies raw
      ensures Valid() && key.value.Valid() && ps >= 420
      ensures raw[380..420] == WithCrc(old(raw[380..420]), crc)
      ensures raw[420..] == Enc(key.value, Iv(key.value.size), old(raw[420..]))
    {
      hide BlockCipher.Valid, Enc, Iv, Part;
      ghost var r0 := raw[..];
      forall i | 0 <= i < 4 { raw[394 + i] := crc[i]; }
      ghost var r1 := raw[..];
      assert r1[420..] == r0[420..] && r1[380..420] == WithCrc(r0[380..420], crc);
      EncryptCTS(key.value, raw, 420, raw, 420, ps - 40);
      PartIs(r1, 420, 420 + (ps - 40), r1[420..420 + (ps - 40)]);
      assert r1[420..420 + (ps - 40)] == r0[420..];
      TailReplaced(r1, raw[..], ps, Enc(key.value, Iv(key.value.size), r0[420..]));
    }

    /** Writes one block from the header's place on. */
    method PutRegion(raw: array<bv8>, number: nat)
      requires Valid() && number < total && raw.Length == ps + 380 && raw != file
      modifies file
      ensures number * ps + 380 + ps <= file.Length
      ensures Outside(old(file[..]), file[..], number * ps + 380, ps)
      ensures Region(file[..], ps, number) == raw[380..]
    {
      RegionInside(ps, number, total, file.Length);
      var at := number * ps + 380;
      forall i | 0 <= i < ps { file[at + i] := raw[380 + i]; }
      assert file[at..at + ps] == raw[380..];
    }

    lemma ChecksumSize(b: Bytes)
      requires Valid()
      ensures |checksum(b)| == 4
    {
    }

    lemma ValidParts(n: nat)
      requires Valid() && n < total
      ensures ps >= 420 && file.Length == total * ps + 380 && n * ps + 380 + ps <= file.Length
      ensures key.Some? ==> key.value.Valid()
      ensures |Region(file[..], ps, n)| == ps
      ensures HeaderIn(file[..], ps, n) == Region(file[..], ps, n)[..40]
      ensures PayloadIn(file[..], ps, n, key) == PayloadOf(Region(file[..], ps, n), n, key)
    {
      RegionInside(ps, n, total, file.Length);
    }
  }

  lemma SplitRaw(raw: Bytes, region: Bytes, ps: nat)
    requires ps >= 420 && |raw| == ps + 380 && raw[380..] == region
    ensures |region| == ps && raw[380..420] == region[..40] && raw[420..] == region[40..]
    ensures Part(raw, 420, 420 + (ps - 40)) == region[40..]
  {
    assert raw[380..420] == raw[380..][..40] && raw[420..] == raw[380..][40..];
    assert raw[420..ps + 380] == raw[420..];
  }

  lemma Decrypted(region: Bytes, n: nat, key: Option<BlockCipher>)
    requires |region| >= 40 && key.Some? && key.value.Valid()
    requires n > 0 && HasMarker(region[..40]) && HasCrc(region[..40])
    ensures |Iv(key.value.size)| == key.value.size
    ensures PayloadOf(region, n, key) == Dec(key.value, Iv(key.value.size), region[40..])
  {
    hide Dec, BlockCipher.Valid;
  }

  lemma InTheClear(region: Bytes, n: nat, key: Option<BlockCipher>)
    requires |region| >= 40 && (key.Some? ==> key.value.Valid())
    requires !(n > 0 && key.Some? && HasMarker(region[..40]) && HasCrc(region[..40]))
    ensures PayloadOf(region, n, key) == region[40..]
  {
    hide Dec, BlockCipher.Valid;
  }

  lemma TailReplaced(a: Bytes, b: Bytes, ps: nat, x: Bytes)
    requires ps >= 420 && |a| == ps + 380 && Outside(a, b, 420, ps - 40) && Part(b, 420, 420 + (ps - 40)) == x
    ensures |b| == |a| && b[380..420] == a[380..420] && b[420..] == x
  {
    assert b[420..ps + 380] == b[420..];
  }

  /** Header and payload of page j read the same. */
  ghost predicate PageKept(a: Bytes, b: Bytes, ps: nat, j: nat, key: Option<BlockCipher>)
    requires key.Some? ==> key.value.Valid()
  {
    HeaderIn(b, ps, j) == HeaderIn(a, ps, j) && PayloadIn(b, ps, j, key) == PayloadIn(a, ps, j, key)
  }

  lemma AllKept(a: Bytes, ps: nat, key: Option<BlockCipher>)
    requires key.Some? ==> key.value.Valid()
    ensures forall j: nat :: PageKept(a, a, ps, j, key)
  {
    hide HeaderIn, PayloadIn, BlockCipher.Valid;
  }

  /** What the other pages say is unchanged, and this one says what was put there. */
  lemma AfterWrite(a: Bytes, b: Bytes, ps: nat, number: nat, total: nat, region: Bytes, key: Option<BlockCipher>)
    requires (key.Some? ==> key.value.Valid()) && number < total && ps >= 420 && |a| == total * ps + 380
    requires Outside(a, b, number * ps + 380, ps) && Region(b, ps, number) == region && |region| == ps
    ensures forall j: nat :: j < total && j != number ==> PageKept(a, b, ps, j, key)
    ensures HeaderIn(b, ps, number) == region[..40] && PayloadIn(b, ps, number, key) == PayloadOf(region, number, key)
  {
    hide Outside, BlockCipher.Valid, PayloadOf, Region;
    forall j: nat | j < total && j != number
      ensures PageKept(a, b, ps, j, key)
    {
      RegionInside(ps, j, total, |a|);
      RegionInside(ps, number, total, |a|);
      OtherRegion(a, b, ps, number, j);
    }
  }

  function AllZero(b: Bytes): bool
  {
    forall i :: 0 <= i < |b| ==> b[i] == 0
  }

  /** The header with its checksum field set. */
  function WithCrc(h: Bytes, crc: Bytes): (r: Bytes)
    requires |h| == 40 && |crc| == 4
    ensures |r| == 40
  {
    h[..14] + crc + h[18..]
  }

  function WrittenHeader(h: Bytes, encrypted: bool, crc: Bytes): Bytes
    requires |h| == 40 && |crc| == 4
  {
    if encrypted then WithCrc(h, crc) else h
  }

  lemma WrittenIs(h: Bytes, encrypted: bool, crc: Bytes)
    requires |h| == 40 && |crc| == 4
    ensures WrittenHeader(h, encrypted, crc) == if encrypted then WithCrc(h, crc) else h
  {
  }

  lemma SealedRaw(raw: Bytes, h: Bytes, crc: Bytes, c: BlockCipher, p: Bytes, ps: nat)
    requires |raw| == ps + 380 && ps >= 420 && |h| == 40 && |crc| == 4 && c.Valid()
    requires raw[380..420] == WithCrc(h, crc) && |Iv(c.size)| == c.size && raw[420..] == Enc(c, Iv(c.size), p)
    ensures raw[380..] == WithCrc(h, crc) + Enc(c, Iv(c.size), p) && |raw[380..]| == ps
  {
    hide Enc, BlockCipher.Valid, WithCrc, Iv;
    assert raw[380..] == raw[380..420] + raw[420..];
  }

  lemma PlainRaw(raw: Bytes, h: Bytes, p: Bytes, ps: nat)
    requires |raw| == ps + 380 && ps >= 420 && raw[380..420] == h && raw[420..] == p
    ensures raw[380..] == h + p && |raw[380..]| == ps && |h| == 40
  {
  }

  /** An encrypted page with a marker reads back, unless it is page 0. */
  lemma SealedReads(h: Bytes, crc: Bytes, c: BlockCipher, p: Bytes, n: nat, key: Option<BlockCipher>)
    requires |h| == 40 && |crc| == 4 && !AllZero(crc) && key == Some(c) && c.Valid() && |Iv(c.size)| == c.size
    ensures var region := WithCrc(h, crc) + Enc(c, Iv(c.size), p);
      && region[..40] == WithCrc(h, crc)
      && (n > 0 && HasMarker(h) ==> PayloadOf(region, n, key) == p)
  {
    hide Enc, Dec, BlockCipher.Valid, Iv;
    var e := Enc(c, Iv(c.size), p);
    var region := WithCrc(h, crc) + e;
    assert region[..40] == WithCrc(h, crc) && region[40..] == e;
    DecEnc(c, Iv(c.size), p);
    assert HasCrc(region[..40]);
  }

  lemma ClearReads(h: Bytes, p: Bytes, n: nat, key: Option<BlockCipher>)
    requires |h| == 40 && (key.Some? ==> key.value.Valid())
    ensures (h + p)[..40] == h
    ensures !(n > 0 && key.Some? && HasMarker(h) && HasCrc(h)) ==> PayloadOf(h + p, n, key) == p
  {
    hide Dec, BlockCipher.Valid;
    assert (h + p)[..40] == h && (h + p)[40..] == p;
  }
}
