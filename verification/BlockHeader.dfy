/** The header of a dynamic block: what it is made of, and that it reads back. */
module BlockHeader {
  import opened Bits
  import opened PrefixCodes
  import opened Inflate
  import opened InflateLemmas
  import opened CodeLengths

  /** Where each code length symbol stands in the transmission order. */
  const CL_RANK: seq<nat> := [3, 17, 15, 13, 11, 9, 7, 5, 4, 6, 8, 10, 12, 14, 16, 18, 0, 1, 2]

  /** a and b undo each other on the places below n. */
  predicate Undoes(a: seq<nat>, b: seq<nat>, n: nat)
    requires n <= |a|
    decreases n
  {
    n == 0 || (a[n - 1] < |b| && b[a[n - 1]] == n - 1 && Undoes(a, b, n - 1))
  }

  lemma {:induction false} UndoesAt(a: seq<nat>, b: seq<nat>, n: nat, i: nat)
    requires i < n <= |a| && Undoes(a, b, n)
    ensures a[i] < |b| && b[a[i]] == i
  {
    if i < n - 1 { UndoesAt(a, b, n - 1, i); }
  }

  lemma OrderAndRank()
    ensures |CL_ORDER| == |CL_RANK| == 19
    ensures Undoes(CL_ORDER, CL_RANK, 19) && Undoes(CL_RANK, CL_ORDER, 19)
  {
    assert Undoes(CL_ORDER, CL_RANK, 5);
    assert Undoes(CL_ORDER, CL_RANK, 10);
    assert Undoes(CL_ORDER, CL_RANK, 15);
    assert Undoes(CL_RANK, CL_ORDER, 5);
    assert Undoes(CL_RANK, CL_ORDER, 10);
    assert Undoes(CL_RANK, CL_ORDER, 15);
  }

  lemma OrderAt(i: nat)
    requires i < 19
    ensures |CL_ORDER| == |CL_RANK| == 19
    ensures CL_ORDER[i] < 19 && CL_RANK[CL_ORDER[i]] == i
    ensures CL_RANK[i] < 19 && CL_ORDER[CL_RANK[i]] == i
  {
    hide CL_ORDER, CL_RANK;
    OrderAndRank();
    UndoesAt(CL_ORDER, CL_RANK, 19, i);
    UndoesAt(CL_RANK, CL_ORDER, 19, i);
  }

  /** The code length code's lengths at ranks i..n-1, three bits each. */
  function ClBits(cl: seq<nat>, i: nat, n: nat): bits
    requires i <= n <= 19 && |cl| == 19
    decreases n - i
  {
    if i == n then [] else Lsb(cl[CL_ORDER[i]], 3) + ClBits(cl, i + 1, n)
  }

  lemma {:induction false} ClBitsMore(cl: seq<nat>, i: nat, n: nat)
    requires i <= n < 19 && |cl| == 19
    ensures ClBits(cl, i, n + 1) == ClBits(cl, i, n) + Lsb(cl[CL_ORDER[n]], 3)
    decreases n - i
  {
    hide *;
    OrderAt(n);
    var x := Lsb(cl[CL_ORDER[n]], 3);
    ClBitsStep(cl, n, n + 1);
    ClBitsStep(cl, i, n);
    if i == n {
      ClBitsStep(cl, n + 1, n + 1);
    } else {
      OrderAt(i);
      ClBitsMore(cl, i + 1, n);
      ClBitsStep(cl, i, n + 1);
      ConcatAssoc(Lsb(cl[CL_ORDER[i]], 3), ClBits(cl, i + 1, n), x);
    }
  }

  lemma ClBitsStep(cl: seq<nat>, i: nat, n: nat)
    requires i <= n <= 19 && |cl| == 19
    ensures |CL_ORDER| == 19
    ensures i == n ==> ClBits(cl, i, n) == []
    ensures i < n ==> CL_ORDER[i] < 19 && ClBits(cl, i, n) == Lsb(cl[CL_ORDER[i]], 3) + ClBits(cl, i + 1, n)
  {
    hide Lsb;
  }

  /** The lengths at ranks below i, zero elsewhere. */
  ghost predicate Masked(acc: seq<nat>, cl: seq<nat>, i: nat)
  {
    |acc| == |cl| == |CL_RANK| == 19 && forall s :: 0 <= s < 19 ==> acc[s] == if CL_RANK[s] < i then cl[s] else 0
  }

  lemma MaskMore(acc: seq<nat>, cl: seq<nat>, i: nat)
    requires Masked(acc, cl, i) && i < 19
    ensures |CL_ORDER| == 19 && CL_ORDER[i] < 19 && Masked(acc[CL_ORDER[i] := cl[CL_ORDER[i]]], cl, i + 1)
  {
    hide CL_ORDER, CL_RANK;
    OrderAt(i);
    forall s | 0 <= s < 19
      ensures CL_RANK[s] == i <==> s == CL_ORDER[i]
    {
      OrderAt(s);
    }
  }

  lemma {:induction false} ReadClBack(cl: seq<nat>, i: nat, n: nat, acc: seq<nat>, rest: bits)
    requires i <= n <= 19 && Masked(acc, cl, i) && (forall s :: 0 <= s < 19 ==> cl[s] < 8)
    ensures ReadClLens(ClBits(cl, i, n) + rest, i, n, acc).Ok?
    ensures ReadClLens(ClBits(cl, i, n) + rest, i, n, acc).rest == rest
    ensures Masked(ReadClLens(ClBits(cl, i, n) + rest, i, n, acc).val, cl, n)
    decreases n - i
  {
    hide ReadBits, Lsb, CL_ORDER, Masked, Pow2, CL_RANK;
    MaskSize(acc, cl, i);
    if i == n {
      assert ClBits(cl, i, n) + rest == rest;
    } else {
      MaskMore(acc, cl, i);
      Pow2Values();
      var v := cl[CL_ORDER[i]];
      ConcatAssoc(Lsb(v, 3), ClBits(cl, i + 1, n), rest);
      ReadLsb(v, 3, ClBits(cl, i + 1, n) + rest);
      ReadClBack(cl, i + 1, n, acc[CL_ORDER[i] := v], rest);
    }
  }

  lemma MaskSize(acc: seq<nat>, cl: seq<nat>, i: nat)
    requires Masked(acc, cl, i)
    ensures |acc| == |cl| == 19
  {
  }

  /** The lengths not sent are zero. */
  ghost predicate Trimmed(cl: seq<nat>, n: nat)
  {
    |cl| == |CL_ORDER| == 19 && forall r :: n <= r < 19 ==> CL_ORDER[r] < 19 && cl[CL_ORDER[r]] == 0
  }

  lemma MaskTrimmed(acc: seq<nat>, cl: seq<nat>, n: nat)
    requires Masked(acc, cl, n) && Trimmed(cl, n)
    ensures acc == cl
  {
    hide CL_ORDER, CL_RANK;
    forall s | 0 <= s < 19
      ensures acc[s] == cl[s]
    {
      OrderAt(s);
      if CL_RANK[s] >= n { assert cl[CL_ORDER[CL_RANK[s]]] == 0; }
    }
  }

  lemma MaskStart(cl: seq<nat>)
    requires |cl| == 19
    ensures Masked(Repeat(0, 19), cl, 0)
  {
    RepeatAll(0, 19);
  }

  // -- the header as a whole --------------------------------------------------------------

  /** Everything a dynamic header needs of its three codes. */
  ghost predicate HeaderReady(ll: seq<nat>, dl: seq<nat>, cl: seq<nat>, n: nat)
  {
    && 257 <= |ll| <= 288 && 1 <= |dl| <= 32 && 4 <= n <= 19
    && Decodable(ll) && Decodable(dl) && Decodable(cl)
    && Trimmed(cl, n) && (forall s :: 0 <= s < 19 ==> cl[s] < 8)
    && ItemsCoded(cl, Items(-1, ll)) && ItemsCoded(cl, Items(-1, dl))
  }

  /** The two sets of lengths, run-length coded one after the other. */
  ghost function LensBits(ll: seq<nat>, dl: seq<nat>, cl: seq<nat>): bits
    requires ItemsCoded(cl, Items(-1, ll)) && ItemsCoded(cl, Items(-1, dl))
  {
    EncodeItems(cl, Items(-1, ll)) + EncodeItems(cl, Items(-1, dl))
  }

  ghost function HeaderBits(ll: seq<nat>, dl: seq<nat>, cl: seq<nat>, n: nat): bits
    requires HeaderReady(ll, dl, cl, n)
  {
    Lsb(|ll| - 257, 5) + (Lsb(|dl| - 1, 5) + (Lsb(n - 4, 4) + (ClBits(cl, 0, n) + LensBits(ll, dl, cl))))
  }

  /** One sequence of lengths serves both codes, and splits where the first ends. */
  lemma ReadLensBack(ll: seq<nat>, dl: seq<nat>, cl: seq<nat>, rest: bits)
    requires Decodable(cl) && ItemsCoded(cl, Items(-1, ll)) && ItemsCoded(cl, Items(-1, dl))
    ensures ReadLens(cl, |ll| + |dl|, [], LensBits(ll, dl, cl) + rest) == Ok(ll + dl, rest)
  {
    hide *;
    var a, b := Items(-1, ll), Items(-1, dl);
    NothingBefore(ll);
    ItemsMeaning([], -1, ll);
    ItemsCopies([], -1, ll);
    ItemsMeaning(ll, -1, dl);
    ItemsCopies(ll, -1, dl);
    LensBitsParts(ll, dl, cl, rest);
    ReadItemsBack(cl, |ll| + |dl|, [], a, EncodeItems(cl, b) + rest);
    assert [] + ll == ll;
    ReadItemsBack(cl, |ll| + |dl|, ll, b, rest);
    ReadLensDone(cl, ll + dl, rest);
  }

  lemma NothingBefore(acc: seq<nat>)
    ensures Follows(-1, []) && Follows(-1, acc)
  {
  }

  lemma LensBitsParts(ll: seq<nat>, dl: seq<nat>, cl: seq<nat>, rest: bits)
    requires ItemsCoded(cl, Items(-1, ll)) && ItemsCoded(cl, Items(-1, dl))
    ensures LensBits(ll, dl, cl) + rest
         == EncodeItems(cl, Items(-1, ll)) + (EncodeItems(cl, Items(-1, dl)) + rest)
  {
    hide EncodeItems, Items, ItemsCoded;
    ConcatAssoc(EncodeItems(cl, Items(-1, ll)), EncodeItems(cl, Items(-1, dl)), rest);
  }

  lemma ReadLensDone(cl: seq<nat>, acc: seq<nat>, rest: bits)
    ensures ReadLens(cl, |acc|, acc, rest) == Ok(acc, rest)
  {
  }

  lemma ReadHeaderParts(s: bits, hlit: nat, s1: bits, hdist: nat, s2: bits, hclen: nat, s3: bits,
                        cl: seq<nat>, s4: bits, ll: seq<nat>, dl: seq<nat>, s5: bits)
    requires ReadBits(s, 5) == Ok(hlit, s1) && ReadBits(s1, 5) == Ok(hdist, s2) && ReadBits(s2, 4) == Ok(hclen, s3)
    requires hclen <= 15 && ReadClLens(s3, 0, hclen + 4, Repeat(0, 19)) == Ok(cl, s4) && Fits(cl)
    requires |ll| == hlit + 257 && |dl| == hdist + 1 && Fits(ll) && Fits(dl)
    requires ReadLens(cl, hlit + 257 + hdist + 1, [], s4) == Ok(ll + dl, s5)
    ensures ReadHeader(s) == Ok((ll, dl), s5)
  {
    hide ReadBits, ReadClLens, ReadLens, Fits, Repeat;
    assert (ll + dl)[..|ll|] == ll && (ll + dl)[|ll|..] == dl;
  }

  /** A dynamic header reads back as the two codes it was made from. */
  lemma ReadHeaderBack(ll: seq<nat>, dl: seq<nat>, cl: seq<nat>, n: nat, rest: bits)
    requires HeaderReady(ll, dl, cl, n)
    ensures ReadHeader(HeaderBits(ll, dl, cl, n) + rest) == Ok((ll, dl), rest)
  {
    hide *;
    HeaderFacts(ll, dl, cl, n, rest);
    var s4 := LensBits(ll, dl, cl) + rest;
    var s3 := ClBits(cl, 0, n) + s4;
    var s2 := Lsb(n - 4, 4) + s3;
    var s1 := Lsb(|dl| - 1, 5) + s2;
    Pow2Values();
    ReadLsb(|ll| - 257, 5, s1);
    ReadLsb(|dl| - 1, 5, s2);
    ReadLsb(n - 4, 4, s3);
    MaskStart(cl);
    ReadClBack(cl, 0, n, Repeat(0, 19), s4);
    MaskTrimmed(ReadClLens(s3, 0, n, Repeat(0, 19)).val, cl, n);
    ReadLensBack(ll, dl, cl, rest);
    FitsDecodable(ll);
    FitsDecodable(dl);
    FitsDecodable(cl);
    ReadHeaderParts(Lsb(|ll| - 257, 5) + s1, |ll| - 257, s1, |dl| - 1, s2, n - 4, s3, cl, s4, ll, dl, rest);
  }

  lemma HeaderFacts(ll: seq<nat>, dl: seq<nat>, cl: seq<nat>, n: nat, rest: bits)
    requires HeaderReady(ll, dl, cl, n)
    ensures 257 <= |ll| <= 288 && 1 <= |dl| <= 32 && 4 <= n <= 19 && |cl| == 19
    ensures Decodable(ll) && Decodable(dl) && Decodable(cl)
    ensures Trimmed(cl, n) && (forall s :: 0 <= s < 19 ==> cl[s] < 8)
    ensures ItemsCoded(cl, Items(-1, ll)) && ItemsCoded(cl, Items(-1, dl))
    ensures HeaderBits(ll, dl, cl, n) + rest
      == Lsb(|ll| - 257, 5) + (Lsb(|dl| - 1, 5) + (Lsb(n - 4, 4) + (ClBits(cl, 0, n) + (LensBits(ll, dl, cl) + rest))))
  {
    hide Lsb, ClBits, LensBits, Items, ItemsCoded, Decodable, CL_ORDER;
    var a, b, c, d, e := Lsb(|ll| - 257, 5), Lsb(|dl| - 1, 5), Lsb(n - 4, 4), ClBits(cl, 0, n), LensBits(ll, dl, cl);
    ConcatFive(a, b, c, d, e, rest);
  }

  lemma ConcatFive<T>(a: seq<T>, b: seq<T>, c: seq<T>, d: seq<T>, e: seq<T>, rest: seq<T>)
    ensures (a + (b + (c + (d + e)))) + rest == a + (b + (c + (d + (e + rest))))
  {
    ConcatAssoc(a, b + (c + (d + e)), rest);
    ConcatAssoc(b, c + (d + e), rest);
    ConcatAssoc(c, d + e, rest);
    ConcatAssoc(d, e, rest);
  }
}
