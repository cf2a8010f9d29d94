/** Run-length coding of a tree's code lengths, after section 3.2.7 of RFC 1951. */
module CodeLengths {
  import opened Bits
  import opened PrefixCodes
  import opened Inflate
  import opened InflateLemmas

  /** A length on its own, the previous length n more times, or n zeros. */
  datatype Item = Single(v: nat) | Copy(n: nat) | FewZeros(n: nat) | ManyZeros(n: nat)
  {
    predicate Valid() {
      match this
      case Single(v) => v < 16
      case Copy(n) => 3 <= n <= 6
      case FewZeros(n) => 3 <= n <= 10
      case ManyZeros(n) => 11 <= n <= 138
    }

    function Sym(): nat {
      match this
      case Single(v) => v
      case Copy(_) => 16
      case FewZeros(_) => 17
      case ManyZeros(_) => 18
    }

    function ExtraBits(): nat {
      match this
      case Single(_) => 0
      case Copy(_) => 2
      case FewZeros(_) => 3
      case ManyZeros(_) => 7
    }

    function ExtraValue(): nat
      requires Valid()
    {
      match this
      case Single(_) => 0
      case Copy(n) => n - 3
      case FewZeros(n) => n - 3
      case ManyZeros(n) => n - 11
    }

    /** The lengths after this item; there must be a length to copy. */
    function Apply(acc: seq<nat>): (r: seq<nat>)
      ensures |r| >= |acc|
    {
      match this
      case Single(v) => acc + [v]
      case Copy(n) => if acc == [] then acc else acc + Repeat(acc[|acc| - 1], n)
      case FewZeros(n) => acc + Repeat(0, n)
      case ManyZeros(n) => acc + Repeat(0, n)
    }
  }

  // -- cutting lengths into runs -------------------------------------------------------

  function MaxRun(prev: int, v: nat): nat { if v == 0 then 138 else if prev == v then 6 else 7 }

  function MinRun(prev: int, v: nat): nat { if v == 0 || prev == v then 3 else 4 }

  /** How many entries at the front equal v, up to a cap. */
  function RunLength(s: seq<nat>, v: nat, cap: nat): (n: nat)
    ensures n <= |s| && n <= cap && s[..n] == Repeat(v, n)
    ensures s != [] && s[0] == v && cap > 0 ==> n > 0
  {
    if s == [] || cap == 0 || s[0] != v then 0
    else
      var n := RunLength(s[1..], v, cap - 1);
      RepeatFront(v, n);
      assert s[..n + 1] == [v] + s[1..][..n];
      n + 1
  }

  lemma {:induction false} RepeatFront(v: nat, n: nat)
    ensures Repeat(v, n + 1) == [v] + Repeat(v, n)
  {
    if n > 0 { RepeatFront(v, n - 1); }
  }

  lemma {:induction false} RepeatAll(v: nat, n: nat)
    ensures forall i :: 0 <= i < n ==> Repeat(v, n)[i] == v
  {
    if n > 0 { RepeatAll(v, n - 1); }
  }

  function Singles(v: nat, n: nat): seq<Item>
  {
    if n == 0 then [] else Singles(v, n - 1) + [Single(v)]
  }

  /** How a run of n lengths v is sent after a length prev. */
  function RunItems(prev: int, v: nat, n: nat): seq<Item>
  {
    if n < MinRun(prev, v) then Singles(v, n)
    else if v != 0 then if v != prev then [Single(v), Copy(n - 1)] else [Copy(n)]
    else if n <= 10 then [FewZeros(n)]
    else [ManyZeros(n)]
  }

  function Items(prev: int, lens: seq<nat>): seq<Item>
    decreases |lens|
  {
    if lens == [] then []
    else
      var n := RunLength(lens, lens[0], MaxRun(prev, lens[0]));
      RunItems(prev, lens[0], n) + Items(lens[0], lens[n..])
  }

  function ApplyAll(acc: seq<nat>, items: seq<Item>): (r: seq<nat>)
    ensures |r| >= |acc|
  {
    if items == [] then acc else items[|items| - 1].Apply(ApplyAll(acc, items[..|items| - 1]))
  }

  lemma {:induction false} ApplyConcat(acc: seq<nat>, a: seq<Item>, b: seq<Item>)
    ensures ApplyAll(acc, a + b) == ApplyAll(ApplyAll(acc, a), b)
  {
    if b == [] {
      assert a + b == a;
    } else {
      ApplyConcat(acc, a, b[..|b| - 1]);
      assert (a + b)[..|a + b| - 1] == a + b[..|b| - 1];
    }
  }

  lemma {:induction false} SinglesApply(acc: seq<nat>, v: nat, n: nat)
    ensures ApplyAll(acc, Singles(v, n)) == acc + Repeat(v, n)
  {
    if n > 0 { SinglesApply(acc, v, n - 1); }
  }

  /** prev is the last length so far, or -1 when there is none. */
  ghost predicate Follows(prev: int, acc: seq<nat>)
  {
    prev == -1 || (acc != [] && acc[|acc| - 1] == prev)
  }

  lemma RunApply(acc: seq<nat>, prev: int, v: nat, n: nat)
    requires Follows(prev, acc) && n > 0
    ensures ApplyAll(acc, RunItems(prev, v, n)) == acc + Repeat(v, n)
  {
    hide ApplyAll, Repeat;
    if n < MinRun(prev, v) {
      SinglesApply(acc, v, n);
    } else if v != 0 && v != prev {
      TwoItems(acc, Single(v), Copy(n - 1));
      RepeatFront(v, n - 1);
      ConcatAssoc(acc, [v], Repeat(v, n - 1));
    } else if v != 0 {
      OneItem(acc, Copy(n));
    } else if n <= 10 {
      OneItem(acc, FewZeros(n));
    } else {
      OneItem(acc, ManyZeros(n));
    }
  }

  lemma OneItem(acc: seq<nat>, it: Item)
    ensures ApplyAll(acc, [it]) == it.Apply(acc)
  {
    assert [it][..0] == [];
  }

  lemma TwoItems(acc: seq<nat>, a: Item, b: Item)
    ensures ApplyAll(acc, [a, b]) == b.Apply(a.Apply(acc))
  {
    assert [a, b][..1] == [a];
    OneItem(acc, a);
  }

  /** The items stand for exactly the lengths they were made from. */
  lemma {:induction false} ItemsMeaning(acc: seq<nat>, prev: int, lens: seq<nat>)
    requires Follows(prev, acc)
    ensures ApplyAll(acc, Items(prev, lens)) == acc + lens
    decreases |lens|
  {
    if lens == [] {
      assert acc + lens == acc;
    } else {
      var v := lens[0];
      var n := RunLength(lens, v, MaxRun(prev, v));
      MaxRunPositive(prev, v);
      FollowsRun(acc, v, n);
      ItemsMeaning(acc + Repeat(v, n), v, lens[n..]);
      ItemsStep(acc, prev, lens, v, n);
    }
  }

  lemma MaxRunPositive(prev: int, v: nat)
    ensures MaxRun(prev, v) >= 6
  {
  }

  lemma FollowsRun(acc: seq<nat>, v: nat, n: nat)
    requires n > 0
    ensures Follows(v, acc + Repeat(v, n))
  {
    RepeatAll(v, n);
  }

  lemma ItemsStep(acc: seq<nat>, prev: int, lens: seq<nat>, v: nat, n: nat)
    requires Follows(prev, acc) && lens != [] && v == lens[0] && n == RunLength(lens, v, MaxRun(prev, v)) > 0
    requires ApplyAll(acc + Repeat(v, n), Items(v, lens[n..])) == (acc + Repeat(v, n)) + lens[n..]
    ensures ApplyAll(acc, Items(prev, lens)) == acc + lens
  {
    hide ApplyAll, RunItems, RunLength, Repeat, MaxRun, Follows;
    RunApply(acc, prev, v, n);
    ApplyConcat(acc, RunItems(prev, v, n), Items(v, lens[n..]));
    ConcatAssoc(acc, Repeat(v, n), lens[n..]);
    assert lens == lens[..n] + lens[n..];
  }

  /** No item copies a length that is not there. */
  ghost predicate CopiesOk(acc: seq<nat>, items: seq<Item>)
  {
    forall i :: 0 <= i < |items| && items[i].Copy? ==> ApplyAll(acc, items[..i]) != []
  }

  lemma CopiesConcat(acc: seq<nat>, a: seq<Item>, b: seq<Item>)
    requires CopiesOk(acc, a) && CopiesOk(ApplyAll(acc, a), b)
    ensures CopiesOk(acc, a + b)
  {
    forall i | 0 <= i < |a + b| && (a + b)[i].Copy?
      ensures ApplyAll(acc, (a + b)[..i]) != []
    {
      if i < |a| {
        assert (a + b)[..i] == a[..i];
      } else {
        assert (a + b)[..i] == a + b[..i - |a|];
        ApplyConcat(acc, a, b[..i - |a|]);
      }
    }
  }

  lemma RunCopies(acc: seq<nat>, prev: int, v: nat, n: nat)
    requires Follows(prev, acc)
    ensures CopiesOk(acc, RunItems(prev, v, n))
  {
    var items := RunItems(prev, v, n);
    if n < MinRun(prev, v) {
      SinglesOnly(v, n);
    } else if v != 0 && v != prev {
      OneItem(acc, Single(v));
      assert items[..1] == [Single(v)];
    } else if v != 0 {
      assert items[..0] == [];
    }
  }

  lemma {:induction false} SinglesOnly(v: nat, n: nat)
    ensures |Singles(v, n)| == n && forall i :: 0 <= i < n ==> Singles(v, n)[i] == Single(v)
  {
    if n > 0 { SinglesOnly(v, n - 1); }
  }

  lemma {:induction false} ItemsCopies(acc: seq<nat>, prev: int, lens: seq<nat>)
    requires Follows(prev, acc)
    ensures CopiesOk(acc, Items(prev, lens))
    decreases |lens|
  {
    if lens != [] {
      hide CopiesOk, RunItems, ApplyAll, Repeat, Follows;
      var v := lens[0];
      var n := RunLength(lens, v, MaxRun(prev, v));
      RunCopies(acc, prev, v, n);
      RunApply(acc, prev, v, n);
      FollowsRun(acc, v, n);
      ItemsCopies(acc + Repeat(v, n), v, lens[n..]);
      CopiesConcat(acc, RunItems(prev, v, n), Items(v, lens[n..]));
    } else {
      assert Items(prev, lens) == [];
    }
  }

  lemma {:induction false} ItemsValid(prev: int, lens: seq<nat>)
    requires forall i :: 0 <= i < |lens| ==> lens[i] < 16
    ensures forall i :: 0 <= i < |Items(prev, lens)| ==> Items(prev, lens)[i].Valid()
    ensures |Items(prev, lens)| <= |lens|
    decreases |lens|
  {
    if lens != [] {
      var v := lens[0];
      var n := RunLength(lens, v, MaxRun(prev, v));
      RunValid(prev, v, n);
      ItemsValid(v, lens[n..]);
    }
  }

  lemma RunValid(prev: int, v: nat, n: nat)
    requires v < 16 && 0 < n <= MaxRun(prev, v)
    ensures forall i :: 0 <= i < |RunItems(prev, v, n)| ==> RunItems(prev, v, n)[i].Valid()
    ensures |RunItems(prev, v, n)| <= n
  {
    SinglesOnly(v, n);
  }

  // -- sending and reading items ----------------------------------------------------------

  function EncodeItem(cl: seq<nat>, it: Item): bits
    requires it.Valid() && it.Sym() < |cl|
  {
    CodeWord(cl, it.Sym()) + Lsb(it.ExtraValue(), it.ExtraBits())
  }

  ghost predicate ItemCoded(cl: seq<nat>, it: Item)
  {
    it.Valid() && it.Sym() < |cl| && cl[it.Sym()] > 0
  }

  ghost predicate ItemsCoded(cl: seq<nat>, items: seq<Item>)
  {
    forall i :: 0 <= i < |items| ==> ItemCoded(cl, items[i])
  }

  ghost function EncodeItems(cl: seq<nat>, items: seq<Item>): bits
    requires ItemsCoded(cl, items)
  {
    if items == [] then []
    else EncodeItems(cl, items[..|items| - 1]) + EncodeItem(cl, items[|items| - 1])
  }

  lemma {:induction false} EncodeConcat(cl: seq<nat>, a: seq<Item>, b: seq<Item>)
    requires ItemsCoded(cl, a) && ItemsCoded(cl, b)
    ensures ItemsCoded(cl, a + b)
    ensures EncodeItems(cl, a + b) == EncodeItems(cl, a) + EncodeItems(cl, b)
  {
    hide EncodeItem, ItemCoded, EncodeItems;
    if b == [] {
      assert a + b == a;
      EncodeNone(cl);
      assert EncodeItems(cl, a) + [] == EncodeItems(cl, a);
    } else {
      var init, x := b[..|b| - 1], b[|b| - 1];
      EncodeConcat(cl, a, init);
      EncodeBoth(cl, a, init, x);
      assert a + init + [x] == a + b && init + [x] == b;
    }
  }

  lemma EncodeBoth(cl: seq<nat>, a: seq<Item>, init: seq<Item>, x: Item)
    requires ItemsCoded(cl, a) && ItemsCoded(cl, init) && ItemsCoded(cl, a + init) && ItemCoded(cl, x)
    requires EncodeItems(cl, a + init) == EncodeItems(cl, a) + EncodeItems(cl, init)
    ensures ItemsCoded(cl, a + init + [x]) && ItemsCoded(cl, init + [x])
    ensures EncodeItems(cl, a + init + [x]) == EncodeItems(cl, a) + EncodeItems(cl, init + [x])
  {
    hide *;
    EncodeItemMore(cl, a + init, x);
    EncodeItemMore(cl, init, x);
    CodedItem(cl, x);
    ConcatAssoc(EncodeItems(cl, a), EncodeItems(cl, init), EncodeItem(cl, x));
  }

  lemma EncodeNone(cl: seq<nat>)
    ensures ItemsCoded(cl, []) && EncodeItems(cl, []) == []
  {
  }

  lemma CodedItem(cl: seq<nat>, x: Item)
    requires ItemCoded(cl, x)
    ensures x.Valid() && x.Sym() < |cl|
  {
  }

  lemma EncodeItemMore(cl: seq<nat>, items: seq<Item>, x: Item)
    requires ItemsCoded(cl, items) && ItemCoded(cl, x)
    ensures ItemsCoded(cl, items + [x])
    ensures EncodeItems(cl, items + [x]) == EncodeItems(cl, items) + EncodeItem(cl, x)
  {
    assert (items + [x])[..|items|] == items;
  }

  /** One item read back. */
  lemma ReadItemBack(cl: seq<nat>, total: nat, acc: seq<nat>, it: Item, rest: bits)
    requires Decodable(cl) && ItemCoded(cl, it)
    requires |acc| < total && (it.Copy? ==> acc != [])
    ensures ReadLens(cl, total, acc, EncodeItem(cl, it) + rest) == ReadLens(cl, total, it.Apply(acc), rest)
  {
    hide ReadBits, ReadSymbol, CodeWord, Lsb, Decodable, Repeat, Pow2;
    var w, x := CodeWord(cl, it.Sym()), Lsb(it.ExtraValue(), it.ExtraBits());
    ConcatAssoc(w, x, rest);
    ReadWord(cl, it.Sym(), x + rest);
    Pow2Values();
    if it.Single? {
      NoBits(it.ExtraValue());
      assert x + rest == rest;
    } else {
      ReadLsb(it.ExtraValue(), it.ExtraBits(), rest);
    }
  }

  lemma NoBits(v: nat)
    ensures Lsb(v, 0) == []
  {
  }

  lemma {:induction false} ReadItemsBack(cl: seq<nat>, total: nat, acc: seq<nat>, items: seq<Item>, rest: bits)
    requires Decodable(cl) && ItemsCoded(cl, items) && CopiesOk(acc, items)
    requires |ApplyAll(acc, items)| <= total
    ensures ReadLens(cl, total, acc, EncodeItems(cl, items) + rest) == ReadLens(cl, total, ApplyAll(acc, items), rest)
  {
    hide ReadLens, EncodeItem, Decodable;
    if items == [] {
      assert EncodeItems(cl, items) + rest == rest;
    } else {
      var init, it := items[..|items| - 1], items[|items| - 1];
      assert forall i :: 0 <= i < |init| ==> init[..i] == items[..i];
      assert it.Copy? ==> ApplyAll(acc, items[..|items| - 1]) != [];
      ItemGrows(it, ApplyAll(acc, init));
      ConcatAssoc(EncodeItems(cl, init), EncodeItem(cl, it), rest);
      ReadItemsBack(cl, total, acc, init, EncodeItem(cl, it) + rest);
      ReadItemBack(cl, total, ApplyAll(acc, init), it, rest);
    }
  }

  lemma ItemGrows(it: Item, acc: seq<nat>)
    requires it.Valid() && (it.Copy? ==> acc != [])
    ensures |it.Apply(acc)| > |acc|
  {
  }
}
