/** The encoder's own code tables, computed in loops, and that they agree with the
    tables of section 3.2.5 of RFC 1951. */
module Tables {
  import opened Bits
  import opened Inflate
  import opened Tokens

  const EXTRA_LBITS: seq<nat> :=
    [0, 0, 0, 0, 0, 0, 0, 0, 1, 1, 1, 1, 2, 2, 2, 2, 3, 3, 3, 3, 4, 4, 4, 4, 5, 5, 5, 5, 0]
  const EXTRA_DBITS: seq<nat> :=
    [0, 0, 0, 0, 1, 1, 2, 2, 3, 3, 4, 4, 5, 5, 6, 6, 7, 7, 8, 8, 9, 9, 10, 10, 11, 11, 12, 12, 13, 13]
  const EXTRA_BLBITS: seq<nat> := [0, 0, 0, 0, 0, 0, 0, 0, 0, 0, 0, 0, 0, 0, 0, 0, 2, 3, 7]
  const BL_ORDER: seq<nat> := [16, 17, 18, 0, 8, 7, 9, 6, 10, 5, 11, 4, 12, 3, 13, 2, 14, 1, 15]

  lemma SameExtras()
    ensures EXTRA_LBITS == LENGTH_EXTRA && EXTRA_DBITS == DIST_EXTRA && BL_ORDER == CL_ORDER
    ensures |EXTRA_LBITS| == 29 && |EXTRA_DBITS| == 30 && |EXTRA_BLBITS| == 19 && |BL_ORDER| == 19
  {
  }

  /** The first length less three of each length code; the last code's entry is not used. */
  method BuildBaseLength() returns (base: array<nat>)
    ensures fresh(base) && base.Length == |LENGTH_BASE| == 29
    ensures forall c :: 0 <= c < 28 ==> base[c] + 3 == LENGTH_BASE[c]
  {
    hide *;
    SameExtras();
    LengthsSpaced();
    base := new nat[29](_ => 0);
    var length: nat := 0;
    var code := 0;
    while code < 28
      invariant code <= 28 && (code < 28 ==> length + 3 == LENGTH_BASE[code])
      invariant forall c :: 0 <= c < code ==> base[c] + 3 == LENGTH_BASE[c]
    {
      if code < 27 { SpacedAt(LENGTH_BASE, LENGTH_EXTRA, 27, code); }
      base[code] := length;
      length := length + Pow2(EXTRA_LBITS[code]);
      code := code + 1;
    }
  }

  /** The length code of each length less three. */
  method BuildLengthCode() returns (codes: array<byte>)
    ensures fresh(codes) && codes.Length == 256
    ensures forall lc :: 0 <= lc < 256 ==> codes[lc] == LengthCode(lc + 3)
  {
    hide *;
    SameExtras();
    LengthsSpaced();
    Pow2Values();
    codes := new byte[256](_ => 0);
    var length: nat := 0;
    var code := 0;
    while code < 28
      invariant code <= 28 && length + 3 == if code < 28 then LENGTH_BASE[code] else 259
      invariant forall lc :: 0 <= lc < length && lc < 255 ==> lc < codes.Length && codes[lc] == LengthCode(lc + 3)
    {
      if code < 27 {
        SpacedAt(LENGTH_BASE, LENGTH_EXTRA, 27, code);
        SpacedGrows(LENGTH_BASE, LENGTH_EXTRA, 27, code + 1, 27);
      }
      ghost var start := length;
      var i := 0;
      while i < Pow2(EXTRA_LBITS[code])
        invariant i <= Pow2(EXTRA_LBITS[code]) && length == start + i
        invariant forall lc :: 0 <= lc < length && lc < 255 ==> lc < codes.Length && codes[lc] == LengthCode(lc + 3)
      {
        if length < 255 { LengthCodeIs(length + 3, code); }
        codes[length] := code;
        length := length + 1;
        i := i + 1;
      }
      code := code + 1;
    }
    codes[length - 1] := code;
    LastLengthCode();
  }

  lemma LastLengthCode()
    ensures LengthCode(258) == 28
  {
  }

  method BuildBaseDist() returns (base: array<nat>)
    ensures fresh(base) && base.Length == |DIST_BASE| == 30
    ensures forall d :: 0 <= d < 30 ==> base[d] + 1 == DIST_BASE[d]
  {
    hide *;
    SameExtras();
    DistancesSpaced();
    base := new nat[30](_ => 0);
    var dist: nat := 0;
    var code := 0;
    while code < 16
      invariant code <= 16 && dist + 1 == DIST_BASE[code]
      invariant forall d :: 0 <= d < code ==> base[d] + 1 == DIST_BASE[d]
    {
      SpacedAt(DIST_BASE, DIST_EXTRA, 29, code);
      base[code] := dist;
      dist := dist + Pow2(EXTRA_DBITS[code]);
      code := code + 1;
    }
    dist := dist / 128;
    while code < 30
      invariant 16 <= code <= 30 && (code < 30 ==> dist * 128 + 1 == DIST_BASE[code])
      invariant forall d :: 0 <= d < code ==> base[d] + 1 == DIST_BASE[d]
    {
      LateExtra(code);
      if code < 29 { SpacedAt(DIST_BASE, DIST_EXTRA, 29, code); }
      base[code] := dist * 128;
      dist := dist + Pow2(EXTRA_DBITS[code] - 7);
      code := code + 1;
    }
  }

  /** From code 16 on every span is a whole number of 128s. */
  lemma LateExtra(code: nat)
    requires 16 <= code < 30
    ensures |DIST_EXTRA| == |EXTRA_DBITS| == 30 && 7 <= EXTRA_DBITS[code] == DIST_EXTRA[code]
    ensures Pow2(DIST_EXTRA[code]) == 128 * Pow2(EXTRA_DBITS[code] - 7)
  {
    assert DIST_EXTRA[code] >= 7;
    Pow2Add(7, DIST_EXTRA[code] - 7);
    Pow2Values();
  }

  /** The distance code of a distance less one. */
  function DistOf(d: nat): nat
  {
    DistCode(d + 1)
  }

  lemma DistOfIs(d: nat, code: nat)
    requires code < 30 && DIST_BASE[code] <= d + 1 < DIST_BASE[code] + Pow2(DIST_EXTRA[code])
    ensures DistOf(d) == code
  {
    DistCodeIs(d + 1, code);
  }

  lemma MakeDistTable(codes: seq<byte>)
    requires |codes| == 512
    requires forall d :: 0 <= d < 256 ==> codes[d] == DistOf(d)
    requires forall d :: 256 <= d < 32768 ==> d / 128 < 256 && codes[256 + d / 128] == DistOf(d)
    ensures DistTable(codes)
  {
  }

  /** The distance code of each distance less one below 256, then of each 128 of them. */
  ghost predicate DistTable(codes: seq<byte>)
  {
    && |codes| == 512
    && (forall d :: 0 <= d < 256 ==> codes[d] == DistOf(d))
    && (forall d :: 256 <= d < 32768 ==> codes[256 + d / 128] == DistOf(d))
  }

  method BuildDistCode() returns (codes: array<byte>)
    ensures fresh(codes) && DistTable(codes[..])
  {
    hide *;
    SameExtras();
    DistancesSpaced();
    Pow2Values();
    codes := new byte[512](_ => 0);
    var dist: nat := 0;
    var code: nat := 0;
    while code < 16
      invariant code <= 16 && dist + 1 == DIST_BASE[code]
      invariant forall d :: 0 <= d < dist ==> d < 256 && codes[d] == DistOf(d)
    {
      SpacedAt(DIST_BASE, DIST_EXTRA, 29, code);
      SpacedGrows(DIST_BASE, DIST_EXTRA, 29, code + 1, 16);
      ghost var start := dist;
      var i := 0;
      while i < Pow2(EXTRA_DBITS[code])
        invariant i <= Pow2(EXTRA_DBITS[code]) && dist == start + i
        invariant forall d :: 0 <= d < dist ==> d < 256 && codes[d] == DistOf(d)
      {
        DistOfIs(dist, code);
        codes[dist] := code;
        dist := dist + 1;
        i := i + 1;
      }
      code := code + 1;
    }
    dist := dist / 128;
    ghost var low := codes[..];
    while code < 30
      invariant 16 <= code <= 30 && dist * 128 + 1 == if code < 30 then DIST_BASE[code] else 32769
      invariant forall d :: 0 <= d < 256 ==> codes[d] == low[d]
      invariant forall d :: 256 <= d < dist * 128 ==> d / 128 < 256 && codes[256 + d / 128] == DistOf(d)
    {
      LateExtra(code);
      if code < 29 {
        SpacedAt(DIST_BASE, DIST_EXTRA, 29, code);
        SpacedGrows(DIST_BASE, DIST_EXTRA, 29, code + 1, 29);
      }
      ghost var start := dist;
      var i := 0;
      while i < Pow2(EXTRA_DBITS[code] - 7)
        invariant i <= Pow2(EXTRA_DBITS[code] - 7) && dist == start + i
        invariant forall d :: 0 <= d < 256 ==> codes[d] == low[d]
        invariant forall d :: 256 <= d < dist * 128 ==> d / 128 < 256 && codes[256 + d / 128] == DistOf(d)
      {
        forall d | dist * 128 <= d < dist * 128 + 128
          ensures DistOf(d) == code
        {
          DistOfIs(d, code);
        }
        codes[256 + dist] := code;
        dist := dist + 1;
        i := i + 1;
      }
      code := code + 1;
    }
    MakeDistTable(codes[..]);
  }
}
