/** Lookup in a B-tree of pages: the descent from the root against the scan of the leaf chain. */
module BTreeLookup {
  import opened Bits
  import opened Inflate

  type Key = seq<byte>

  /** One entry of an index page; in an inner page pageNo is the child behind the key. */
  datatype Entry = Entry(key: Key, pageNo: int, itemNo: nat)

  /** An index page as parsed, or one that cannot be. */
  datatype IndexPage = Unreadable | LeafPage(entries: seq<Entry>, right: int) | InnerPage(entries: seq<Entry>)

  datatype SearchResult = Found(e: Entry) | NotFound | Malformed

  const MAX_DEPTH: nat := 64

  /** The comparison orders keys totally, up to ties. */
  ghost predicate Preorder(cmp: (Key, Key) -> int)
  {
    && (forall a, b :: cmp(a, b) < 0 <==> cmp(b, a) > 0)
    && (forall a, b, c :: cmp(a, b) <= 0 && cmp(b, c) <= 0 ==> cmp(a, c) <= 0)
  }

  ghost predicate Sorted(es: seq<Entry>, cmp: (Key, Key) -> int)
  {
    forall i, j :: 0 <= i < j < |es| ==> cmp(es[i].key, es[j].key) <= 0
  }

  function PageAt(pages: seq<IndexPage>, no: int): IndexPage
  {
    if 0 <= no < |pages| then pages[no] else Unreadable
  }

  /** All leaf entries below a page, left to right, looking d levels deep. */
  ghost function EntriesOf(pages: seq<IndexPage>, no: int, d: nat): seq<Entry>
    decreases d, 0
  {
    if d == 0 then []
    else
      match PageAt(pages, no)
      case Unreadable => []
      case LeafPage(es, _) => es
      case InnerPage(es) => ChildEntries(pages, es, d - 1)
  }

  ghost function ChildEntries(pages: seq<IndexPage>, es: seq<Entry>, d: nat): seq<Entry>
    decreases d, |es| + 1
  {
    if es == [] then [] else ChildEntries(pages, es[..|es| - 1], d) + EntriesOf(pages, es[|es| - 1].pageNo, d)
  }

  ghost predicate Has(s: seq<Entry>, key: Key, cmp: (Key, Key) -> int)
  {
    exists i :: 0 <= i < |s| && cmp(s[i].key, key) == 0
  }

  /** What lies left of the i-th separator is not above it, what lies behind it not below it. */
  ghost predicate Separated(pages: seq<IndexPage>, es: seq<Entry>, d: nat, cmp: (Key, Key) -> int, i: nat)
    requires i < |es|
  {
    && (forall j, e :: 0 <= j < i && e in EntriesOf(pages, es[j].pageNo, d) ==> cmp(e.key, es[i].key) <= 0)
    && (forall j, e :: i <= j < |es| && e in EntriesOf(pages, es[j].pageNo, d) ==> cmp(e.key, es[i].key) >= 0)
  }

  /** A tree no deeper than d whose keys are in order and whose separators bound both sides. */
  ghost predicate WellFormed(pages: seq<IndexPage>, no: int, d: nat, cmp: (Key, Key) -> int)
    decreases d
  {
    d > 0 &&
    match PageAt(pages, no)
    case Unreadable => false
    case LeafPage(es, _) => Sorted(es, cmp)
    case InnerPage(es) =>
      && es != [] && Sorted(es, cmp)
      && (forall i :: 0 <= i < |es| ==> WellFormed(pages, es[i].pageNo, d - 1, cmp))
      && AllSeparated(pages, es, d - 1, cmp)
  }

  ghost predicate AllSeparated(pages: seq<IndexPage>, es: seq<Entry>, d: nat, cmp: (Key, Key) -> int)
  {
    forall i :: 1 <= i < |es| ==> Separated(pages, es, d, cmp, i)
  }

  /** The separator is the last of those that tie with it. */
  ghost predicate EndsRun(es: seq<Entry>, cmp: (Key, Key) -> int, i: nat)
  {
    i < |es| && (i + 1 < |es| ==> cmp(es[i + 1].key, es[i].key) > 0)
  }

  ghost predicate TieLeft(pages: seq<IndexPage>, es: seq<Entry>, d: nat, cmp: (Key, Key) -> int, i: nat)
    requires i < |es|
  {
    exists j, e :: 0 <= j < i && e in EntriesOf(pages, es[j].pageNo, d) && cmp(e.key, es[i].key) == 0
  }

  /** Behind the last of a run of tying separators there is a tie whenever there is one left of it. */
  ghost predicate Closed(pages: seq<IndexPage>, es: seq<Entry>, d: nat, cmp: (Key, Key) -> int, i: nat)
    requires i < |es|
  {
    EndsRun(es, cmp, i) && TieLeft(pages, es, d, cmp, i) ==> Has(EntriesOf(pages, es[i].pageNo, d), es[i].key, cmp)
  }

  ghost predicate PageClosed(pages: seq<IndexPage>, es: seq<Entry>, d: nat, cmp: (Key, Key) -> int)
  {
    forall i :: 1 <= i < |es| ==> Closed(pages, es, d, cmp, i)
  }

  /** Every inner page is closed. */
  ghost predicate AllClosed(pages: seq<IndexPage>, no: int, d: nat, cmp: (Key, Key) -> int)
    decreases d
  {
    d > 0 && PageAt(pages, no).InnerPage? ==>
      var es := PageAt(pages, no).entries;
      && PageClosed(pages, es, d - 1, cmp)
      && (forall i :: 0 <= i < |es| ==> AllClosed(pages, es[i].pageNo, d - 1, cmp))
  }

  /** A child left of place c holds a tie with the key. */
  ghost predicate TieBefore(pages: seq<IndexPage>, es: seq<Entry>, d: nat, key: Key, cmp: (Key, Key) -> int, c: nat)
    requires c <= |es|
  {
    exists j, e :: 0 <= j < c && e in EntriesOf(pages, es[j].pageNo, d) && cmp(e.key, key) == 0
  }

  /** At each inner page on the key's way down, the child behind the last separator not above the key holds a tie with
      it whenever a child left of that one does. */
  ghost predicate KeyClosed(pages: seq<IndexPage>, no: int, d: nat, key: Key, cmp: (Key, Key) -> int)
    decreases d
  {
    d > 0 && PageAt(pages, no).InnerPage? && PageAt(pages, no).entries != [] ==>
      var es := PageAt(pages, no).entries;
      var c := Choice(es, key, cmp);
      && (TieBefore(pages, es, d - 1, key, cmp, c) ==> Has(EntriesOf(pages, es[c].pageNo, d - 1), key, cmp))
      && KeyClosed(pages, es[c].pageNo, d - 1, key, cmp)
  }

  /** No subtree of an inner page is without entries. */
  ghost predicate NoneEmpty(pages: seq<IndexPage>, no: int, d: nat)
    decreases d
  {
    d > 0 && PageAt(pages, no).InnerPage? ==>
      var es := PageAt(pages, no).entries;
      forall i :: 0 <= i < |es| ==> EntriesOf(pages, es[i].pageNo, d - 1) != [] && NoneEmpty(pages, es[i].pageNo, d - 1)
  }

  lemma {:induction false} InChildren(pages: seq<IndexPage>, es: seq<Entry>, d: nat, e: Entry)
    ensures e in ChildEntries(pages, es, d) <==> exists j :: 0 <= j < |es| && e in EntriesOf(pages, es[j].pageNo, d)
    decreases |es|
  {
    hide EntriesOf;
    if es != [] {
      var init := es[..|es| - 1];
      InChildren(pages, init, d, e);
      assert forall j :: 0 <= j < |init| ==> init[j] == es[j];
    }
  }

  // -- one page ------------------------------------------------------------------------------------

  /** Binary search: the first entry whose key compares at least, or above, the one sought. */
  method SearchEntries(es: seq<Entry>, key: Key, cmp: (Key, Key) -> int, above: bool) returns (idx: nat)
    ensures idx <= |es|
    ensures idx < |es| ==> if above then cmp(es[idx].key, key) > 0 else cmp(es[idx].key, key) >= 0
    ensures idx > 0 ==> if above then cmp(es[idx - 1].key, key) <= 0 else cmp(es[idx - 1].key, key) < 0
  {
    var i, j := 0, |es|;
    while i < j
      invariant 0 <= i <= j <= |es|
      invariant j < |es| ==> if above then cmp(es[j].key, key) > 0 else cmp(es[j].key, key) >= 0
      invariant i > 0 ==> if above then cmp(es[i - 1].key, key) <= 0 else cmp(es[i - 1].key, key) < 0
    {
      var h := (i + j) / 2;
      var c := cmp(es[h].key, key);
      if (if above then c > 0 else c >= 0) { j := h; } else { i := h + 1; }
    }
    idx := i;
  }

  method FindInLeaf(es: seq<Entry>, key: Key, cmp: (Key, Key) -> int) returns (r: SearchResult)
    ensures r != Malformed
    ensures r.Found? ==> r.e in es && cmp(r.e.key, key) == 0
    ensures Preorder(cmp) && Sorted(es, cmp) ==> (r.Found? <==> Has(es, key, cmp))
  {
    var idx := SearchEntries(es, key, cmp, false);
    if idx < |es| && cmp(es[idx].key, key) == 0 { return Found(es[idx]); }
    if Preorder(cmp) && Sorted(es, cmp) && Has(es, key, cmp) { AbsentInLeaf(es, key, cmp, idx); }
    r := NotFound;
  }

  lemma AbsentInLeaf(es: seq<Entry>, key: Key, cmp: (Key, Key) -> int, idx: nat)
    requires Preorder(cmp) && Sorted(es, cmp) && idx <= |es|
    requires idx < |es| ==> cmp(es[idx].key, key) > 0
    requires idx > 0 ==> cmp(es[idx - 1].key, key) < 0
    ensures !Has(es, key, cmp)
  {
    forall i | 0 <= i < |es|
      ensures cmp(es[i].key, key) != 0
    {
      if i < idx - 1 { Below(cmp, es[i].key, es[idx - 1].key, key); }
      if i > idx { Above(cmp, es[idx].key, es[i].key, key); }
    }
  }

  lemma Below(cmp: (Key, Key) -> int, a: Key, b: Key, c: Key)
    requires Preorder(cmp) && cmp(a, b) <= 0 && cmp(b, c) < 0
    ensures cmp(a, c) < 0
  {
    assert cmp(c, b) > 0;
    assert cmp(c, a) <= 0 ==> cmp(c, b) <= 0;
  }

  lemma Above(cmp: (Key, Key) -> int, a: Key, b: Key, c: Key)
    requires Preorder(cmp) && cmp(a, b) <= 0 && cmp(a, c) > 0
    ensures cmp(b, c) > 0
  {
    assert cmp(b, c) <= 0 ==> cmp(a, c) <= 0;
  }

  /** The rightmost separator not above the key, or the leftmost. */
  ghost function Choice(es: seq<Entry>, key: Key, cmp: (Key, Key) -> int): (c: nat)
    requires es != []
    ensures c < |es| && (c > 0 ==> cmp(es[c].key, key) <= 0)
  {
    if |es| == 1 || cmp(es[|es| - 1].key, key) <= 0 then |es| - 1 else Choice(es[..|es| - 1], key, cmp)
  }

  /** Everything behind the choice is above the key. */
  lemma {:induction false} ChoiceAbove(es: seq<Entry>, key: Key, cmp: (Key, Key) -> int)
    requires es != []
    ensures forall i :: Choice(es, key, cmp) < i < |es| ==> cmp(es[i].key, key) > 0
    decreases |es|
  {
    if |es| > 1 && cmp(es[|es| - 1].key, key) > 0 {
      var init := es[..|es| - 1];
      ChoiceAbove(init, key, cmp);
      assert forall i :: 0 <= i < |init| ==> init[i] == es[i];
    }
  }

  lemma ChoiceUnique(es: seq<Entry>, key: Key, cmp: (Key, Key) -> int, c: nat)
    requires Preorder(cmp) && Sorted(es, cmp) && c < |es| && (c > 0 ==> cmp(es[c].key, key) <= 0)
    requires c + 1 < |es| ==> cmp(es[c + 1].key, key) > 0
    ensures c == Choice(es, key, cmp)
  {
    hide Choice, Preorder;
    var d := Choice(es, key, cmp);
    ChoiceAbove(es, key, cmp);
    if c < d {
      if c + 1 < d { Above(cmp, es[c + 1].key, es[d].key, key); }
      assert false;
    }
  }

  /** The child behind the rightmost separator not above the key, or the leftmost. */
  method ChildPageNo(es: seq<Entry>, key: Key, cmp: (Key, Key) -> int) returns (no: int, ghost c: nat)
    requires es != []
    ensures c < |es| && no == es[c].pageNo
    ensures Preorder(cmp) && Sorted(es, cmp) ==> c == Choice(es, key, cmp)
    ensures Preorder(cmp) && Sorted(es, cmp) ==> no == es[Choice(es, key, cmp)].pageNo
  {
    hide Choice;
    var idx := SearchEntries(es, key, cmp, true);
    if idx == 0 { no, c := es[0].pageNo, 0; } else { no, c := es[idx - 1].pageNo, idx - 1; }
    if Preorder(cmp) && Sorted(es, cmp) {
      if idx == 0 && |es| > 1 { Above(cmp, es[0].key, es[1].key, key); }
      ChoiceUnique(es, key, cmp, c);
    }
  }

  /** Where the descent for a key ends, there is a tie with it. */
  ghost predicate Descends(pages: seq<IndexPage>, no: int, d: nat, key: Key, cmp: (Key, Key) -> int)
    decreases d
  {
    d > 0 &&
    match PageAt(pages, no)
    case Unreadable => false
    case LeafPage(es, _) => Has(es, key, cmp)
    case InnerPage(es) => es != [] && Descends(pages, es[Choice(es, key, cmp)].pageNo, d - 1, key, cmp)
  }

  lemma InnerEntries(pages: seq<IndexPage>, no: int, d: nat, cmp: (Key, Key) -> int)
    requires WellFormed(pages, no, d, cmp) && PageAt(pages, no).InnerPage?
    ensures d > 0
    ensures var es := PageAt(pages, no).entries;
      && es != [] && EntriesOf(pages, no, d) == ChildEntries(pages, es, d - 1)
      && Sorted(es, cmp) && AllSeparated(pages, es, d - 1, cmp)
      && forall i :: 0 <= i < |es| ==> WellFormed(pages, es[i].pageNo, d - 1, cmp)
  {
    hide AllSeparated, Sorted, ChildEntries;
  }

  lemma LeafEntries(pages: seq<IndexPage>, no: int, d: nat)
    requires d > 0 && PageAt(pages, no).LeafPage?
    ensures EntriesOf(pages, no, d) == PageAt(pages, no).entries
  {
  }

  lemma Tie(s: seq<Entry>, key: Key, cmp: (Key, Key) -> int) returns (i: nat)
    requires Has(s, key, cmp)
    ensures i < |s| && cmp(s[i].key, key) == 0
  {
    i :| 0 <= i < |s| && cmp(s[i].key, key) == 0;
  }

  lemma MakeTie(s: seq<Entry>, e: Entry, key: Key, cmp: (Key, Key) -> int)
    requires e in s && cmp(e.key, key) == 0
    ensures Has(s, key, cmp)
  {
  }

  lemma TieInWhole(pages: seq<IndexPage>, es: seq<Entry>, d: nat, cmp: (Key, Key) -> int, key: Key, c: nat)
    requires c < |es|
    ensures Has(EntriesOf(pages, es[c].pageNo, d), key, cmp) ==> Has(ChildEntries(pages, es, d), key, cmp)
  {
    hide *;
    var part := EntriesOf(pages, es[c].pageNo, d);
    if Has(part, key, cmp) {
      var i := Tie(part, key, cmp);
      InChildren(pages, es, d, part[i]);
      MakeTie(ChildEntries(pages, es, d), part[i], key, cmp);
    }
  }

  /** Of what the descent finds there is a tie below the page, on any well-formed tree. */
  lemma {:induction false} DescentSound(pages: seq<IndexPage>, no: int, d: nat, key: Key, cmp: (Key, Key) -> int)
    requires WellFormed(pages, no, d, cmp) && Descends(pages, no, d, key, cmp)
    ensures Has(EntriesOf(pages, no, d), key, cmp)
    decreases d
  {
    hide EntriesOf, ChildEntries, Has, Sorted, AllSeparated, Choice;
    if PageAt(pages, no).InnerPage? {
      var es := PageAt(pages, no).entries;
      var c := Choice(es, key, cmp);
      DescentSound(pages, es[c].pageNo, d - 1, key, cmp);
      InnerEntries(pages, no, d, cmp);
      TieInWhole(pages, es, d - 1, cmp, key, c);
    } else {
      LeafEntries(pages, no, d);
    }
  }

  /** A tie below an inner page lies in the child chosen, when the page is closed. */
  lemma TieInPart(pages: seq<IndexPage>, es: seq<Entry>, d: nat, cmp: (Key, Key) -> int, key: Key)
    requires Preorder(cmp) && Sorted(es, cmp) && AllSeparated(pages, es, d, cmp) && es != []
    requires PageClosed(pages, es, d, cmp)
    ensures Has(ChildEntries(pages, es, d), key, cmp) ==>
      Has(EntriesOf(pages, es[Choice(es, key, cmp)].pageNo, d), key, cmp)
  {
    hide *;
    var whole, c := ChildEntries(pages, es, d), Choice(es, key, cmp);
    if Has(whole, key, cmp) {
      var i := Tie(whole, key, cmp);
      InChildren(pages, es, d, whole[i]);
      var j :| 0 <= j < |es| && whole[i] in EntriesOf(pages, es[j].pageNo, d);
      if j > c {
        RightIsAbove(pages, es, d, cmp, key, j, whole[i]);
      } else if j < c {
        TieIsThere(pages, es, d, cmp, key, j, whole[i]);
      } else {
        MakeTie(EntriesOf(pages, es[c].pageNo, d), whole[i], key, cmp);
      }
    }
  }

  lemma RightIsAbove(pages: seq<IndexPage>, es: seq<Entry>, d: nat, cmp: (Key, Key) -> int, key: Key, j: nat, e: Entry)
    requires Preorder(cmp) && AllSeparated(pages, es, d, cmp) && es != [] && Choice(es, key, cmp) < j < |es|
    requires e in EntriesOf(pages, es[j].pageNo, d)
    ensures cmp(e.key, key) > 0
  {
    hide EntriesOf, Choice, Preorder;
    assert Separated(pages, es, d, cmp, j);
    ChoiceAbove(es, key, cmp);
    TooHigh(cmp, e.key, es[j].key, key);
  }

  /** A tie left of the choice ties with the separator chosen, which ends its run. */
  lemma TieIsThere(pages: seq<IndexPage>, es: seq<Entry>, d: nat, cmp: (Key, Key) -> int, key: Key, j: nat, e: Entry)
    requires Preorder(cmp) && AllSeparated(pages, es, d, cmp) && es != [] && j < Choice(es, key, cmp)
    requires PageClosed(pages, es, d, cmp)
    requires e in EntriesOf(pages, es[j].pageNo, d) && cmp(e.key, key) == 0
    ensures Has(EntriesOf(pages, es[Choice(es, key, cmp)].pageNo, d), key, cmp)
  {
    hide EntriesOf, Choice, Preorder, Has;
    var c := Choice(es, key, cmp);
    assert Separated(pages, es, d, cmp, c);
    NotBelow(cmp, e.key, es[c].key, key);
    ChoiceAbove(es, key, cmp);
    if c + 1 < |es| { StillAbove(cmp, es[c + 1].key, key, e.key, es[c].key); }
    assert TieLeft(pages, es, d, cmp, c);
    assert Closed(pages, es, d, cmp, c);
    SameTie(EntriesOf(pages, es[c].pageNo, d), es[c].key, e.key, key, cmp);
  }

  lemma StillAbove(cmp: (Key, Key) -> int, next: Key, key: Key, e: Key, sep: Key)
    requires Preorder(cmp) && cmp(next, key) > 0 && cmp(e, key) == 0 && cmp(e, sep) == 0
    ensures cmp(next, sep) > 0
  {
    assert cmp(sep, e) <= 0 && cmp(e, key) <= 0;
    assert cmp(sep, key) <= 0;
    assert cmp(next, sep) <= 0 ==> cmp(next, key) <= 0;
  }

  lemma NotBelow(cmp: (Key, Key) -> int, e: Key, sep: Key, key: Key)
    requires Preorder(cmp) && cmp(sep, key) <= 0 && cmp(e, key) == 0
    ensures cmp(e, sep) >= 0
  {
    assert cmp(key, e) <= 0;
    assert cmp(sep, e) <= 0;
  }

  lemma TooHigh(cmp: (Key, Key) -> int, e: Key, sep: Key, key: Key)
    requires Preorder(cmp) && cmp(e, sep) >= 0 && cmp(sep, key) > 0
    ensures cmp(e, key) > 0
  {
    assert cmp(sep, e) <= 0;
    Above(cmp, sep, e, key);
  }

  lemma SameTie(s: seq<Entry>, sep: Key, e: Key, key: Key, cmp: (Key, Key) -> int)
    requires Preorder(cmp) && Has(s, sep, cmp) && cmp(e, sep) == 0 && cmp(e, key) == 0
    ensures Has(s, key, cmp)
  {
    var i :| 0 <= i < |s| && cmp(s[i].key, sep) == 0;
    var a := s[i].key;
    assert cmp(sep, e) <= 0 && cmp(key, e) <= 0;
    assert cmp(a, e) <= 0 && cmp(a, key) <= 0;
    assert cmp(sep, a) <= 0 && cmp(e, a) <= 0 && cmp(key, a) <= 0;
  }

  /** On a closed tree the descent finds every key the tree holds. */
  lemma {:induction false} DescentComplete(pages: seq<IndexPage>, no: int, d: nat, key: Key, cmp: (Key, Key) -> int)
    requires Preorder(cmp) && WellFormed(pages, no, d, cmp) && AllClosed(pages, no, d, cmp)
    requires Has(EntriesOf(pages, no, d), key, cmp)
    ensures Descends(pages, no, d, key, cmp)
    decreases d
  {
    hide EntriesOf, ChildEntries, Has, Sorted, AllSeparated, Choice, Closed, Preorder;
    if PageAt(pages, no).InnerPage? {
      var es := PageAt(pages, no).entries;
      InnerEntries(pages, no, d, cmp);
      TieInPart(pages, es, d - 1, cmp, key);
      DescentComplete(pages, es[Choice(es, key, cmp)].pageNo, d - 1, key, cmp);
    } else {
      LeafEntries(pages, no, d);
    }
  }

  // -- the failing trees -----------------------------------------------------------------------------

  /** A key the tree holds, with something above it, that the descent does not find. */
  ghost predicate Missed(pages: seq<IndexPage>, no: int, d: nat, key: Key, above: Entry, cmp: (Key, Key) -> int)
  {
    && Has(EntriesOf(pages, no, d), key, cmp) && !Descends(pages, no, d, key, cmp)
    && above in EntriesOf(pages, no, d) && cmp(above.key, key) > 0
  }

  /** A separator that is not closed is itself a key the descent misses. */
  lemma OpenMisses(pages: seq<IndexPage>, no: int, d: nat, cmp: (Key, Key) -> int, i: nat)
    returns (key: Key, above: Entry)
    requires Preorder(cmp) && WellFormed(pages, no, d, cmp) && PageAt(pages, no).InnerPage?
    requires var es := PageAt(pages, no).entries;
      1 <= i < |es| && !Closed(pages, es, d - 1, cmp, i) && EntriesOf(pages, es[i].pageNo, d - 1) != []
    ensures Missed(pages, no, d, key, above, cmp)
  {
    hide EntriesOf, ChildEntries, Sorted, Choice, Preorder, WellFormed;
    var es := PageAt(pages, no).entries;
    InnerEntries(pages, no, d, cmp);
    key := es[i].key;
    var part := EntriesOf(pages, es[i].pageNo, d - 1);
    above := part[0];
    assert Separated(pages, es, d - 1, cmp, i);
    assert cmp(above.key, key) != 0;
    SelfTie(cmp, key);
    ChoiceUnique(es, key, cmp, i);
    var j, e :| 0 <= j < i && e in EntriesOf(pages, es[j].pageNo, d - 1) && cmp(e.key, key) == 0;
    InChildren(pages, es, d - 1, e);
    InChildren(pages, es, d - 1, above);
    MakeTie(ChildEntries(pages, es, d - 1), e, key, cmp);
    if Descends(pages, es[i].pageNo, d - 1, key, cmp) {
      DescentSound(pages, es[i].pageNo, d - 1, key, cmp);
      assert false;
    }
  }

  lemma SelfTie(cmp: (Key, Key) -> int, key: Key)
    requires Preorder(cmp)
    ensures cmp(key, key) == 0
  {
  }

  /** What a child's descent misses, the parent's misses as well. */
  lemma ChildMisses(pages: seq<IndexPage>, no: int, d: nat, cmp: (Key, Key) -> int, c: nat, key: Key, above: Entry)
    requires Preorder(cmp) && WellFormed(pages, no, d, cmp) && PageAt(pages, no).InnerPage?
    requires c < |PageAt(pages, no).entries|
    requires Missed(pages, PageAt(pages, no).entries[c].pageNo, d - 1, key, above, cmp)
    ensures Missed(pages, no, d, key, above, cmp)
  {
    hide EntriesOf, ChildEntries, Sorted, Choice, Preorder, WellFormed, Has;
    var es := PageAt(pages, no).entries;
    InnerEntries(pages, no, d, cmp);
    var part := EntriesOf(pages, es[c].pageNo, d - 1);
    var i := Tie(part, key, cmp);
    if c > 0 {
      assert Separated(pages, es, d - 1, cmp, c);
      AtMost(cmp, es[c].key, part[i].key, key);
    }
    if c + 1 < |es| {
      assert Separated(pages, es, d - 1, cmp, c + 1);
      Above(cmp, above.key, es[c + 1].key, key);
    }
    ChoiceUnique(es, key, cmp, c);
    TieInWhole(pages, es, d - 1, cmp, key, c);
    InChildren(pages, es, d - 1, above);
  }

  lemma AtMost(cmp: (Key, Key) -> int, sep: Key, e: Key, key: Key)
    requires Preorder(cmp) && cmp(e, sep) >= 0 && cmp(e, key) == 0
    ensures cmp(sep, key) <= 0
  {
    assert cmp(sep, e) <= 0 && cmp(e, key) <= 0;
  }

  lemma {:induction false} OpenTreeMisses(pages: seq<IndexPage>, no: int, d: nat, cmp: (Key, Key) -> int)
    returns (key: Key, above: Entry)
    requires Preorder(cmp) && WellFormed(pages, no, d, cmp) && NoneEmpty(pages, no, d) && !AllClosed(pages, no, d, cmp)
    ensures Missed(pages, no, d, key, above, cmp)
    decreases d
  {
    hide EntriesOf, ChildEntries, Sorted, AllSeparated, Preorder, Missed, Closed;
    var es, below := PageAt(pages, no).entries, d - 1;
    if !PageClosed(pages, es, below, cmp) {
      var i :| 1 <= i < |es| && !Closed(pages, es, below, cmp, i);
      key, above := OpenMisses(pages, no, d, cmp, i);
    } else {
      var c :| 0 <= c < |es| && !AllClosed(pages, es[c].pageNo, d - 1, cmp);
      key, above := OpenTreeMisses(pages, es[c].pageNo, d - 1, cmp);
      ChildMisses(pages, no, d, cmp, c, key, above);
    }
  }

  /** A tie below an inner page lies in the child chosen or left of it. */
  lemma TieNotRight(pages: seq<IndexPage>, es: seq<Entry>, d: nat, cmp: (Key, Key) -> int, key: Key)
    requires Preorder(cmp) && Sorted(es, cmp) && AllSeparated(pages, es, d, cmp) && es != []
    ensures var c := Choice(es, key, cmp);
      Has(ChildEntries(pages, es, d), key, cmp) <==>
        Has(EntriesOf(pages, es[c].pageNo, d), key, cmp) || TieBefore(pages, es, d, key, cmp, c)
  {
    hide *;
    var whole, c := ChildEntries(pages, es, d), Choice(es, key, cmp);
    TieInWhole(pages, es, d, cmp, key, c);
    BeforeInWhole(pages, es, d, cmp, key, c);
    if Has(whole, key, cmp) {
      var i := Tie(whole, key, cmp);
      InChildren(pages, es, d, whole[i]);
      var j :| 0 <= j < |es| && whole[i] in EntriesOf(pages, es[j].pageNo, d);
      if j > c {
        RightIsAbove(pages, es, d, cmp, key, j, whole[i]);
      } else if j < c {
        MakeBefore(pages, es, d, cmp, key, c, j, whole[i]);
      } else {
        MakeTie(EntriesOf(pages, es[c].pageNo, d), whole[i], key, cmp);
      }
    }
  }

  lemma MakeBefore(pages: seq<IndexPage>, es: seq<Entry>, d: nat, cmp: (Key, Key) -> int, key: Key, c: nat, j: nat,
                   e: Entry)
    requires j < c <= |es| && e in EntriesOf(pages, es[j].pageNo, d) && cmp(e.key, key) == 0
    ensures TieBefore(pages, es, d, key, cmp, c)
  {
    hide EntriesOf;
  }

  lemma BeforeInWhole(pages: seq<IndexPage>, es: seq<Entry>, d: nat, cmp: (Key, Key) -> int, key: Key, c: nat)
    requires c <= |es|
    ensures TieBefore(pages, es, d, key, cmp, c) ==> Has(ChildEntries(pages, es, d), key, cmp)
  {
    hide EntriesOf, ChildEntries, Has;
    if TieBefore(pages, es, d, key, cmp, c) {
      var j, e :| 0 <= j < c && e in EntriesOf(pages, es[j].pageNo, d) && cmp(e.key, key) == 0;
      InChildren(pages, es, d, e);
      MakeTie(ChildEntries(pages, es, d), e, key, cmp);
    }
  }

  lemma KeyClosedInner(pages: seq<IndexPage>, no: int, d: nat, key: Key, cmp: (Key, Key) -> int)
    requires d > 0 && PageAt(pages, no).InnerPage? && PageAt(pages, no).entries != []
    ensures var es := PageAt(pages, no).entries;
      var c := Choice(es, key, cmp);
      KeyClosed(pages, no, d, key, cmp) <==>
        && (TieBefore(pages, es, d - 1, key, cmp, c) ==> Has(EntriesOf(pages, es[c].pageNo, d - 1), key, cmp))
        && KeyClosed(pages, es[c].pageNo, d - 1, key, cmp)
  {
  }

  lemma KeyClosedLeaf(pages: seq<IndexPage>, no: int, d: nat, key: Key, cmp: (Key, Key) -> int)
    requires PageAt(pages, no).LeafPage?
    ensures KeyClosed(pages, no, d, key, cmp)
  {
  }

  lemma FormedPage(pages: seq<IndexPage>, no: int, d: nat, cmp: (Key, Key) -> int)
    requires WellFormed(pages, no, d, cmp)
    ensures d > 0 && (PageAt(pages, no).LeafPage? || (PageAt(pages, no).InnerPage? && PageAt(pages, no).entries != []))
  {
  }

  /** On any tree whose separators bound both sides, the descent for a key is right, finding it if and only if the tree
      holds a tie with it, if and only if no page on its way down hides one to the left. */
  lemma {:induction false} DescentExact(pages: seq<IndexPage>, no: int, d: nat, key: Key, cmp: (Key, Key) -> int)
    requires Preorder(cmp) && WellFormed(pages, no, d, cmp)
    ensures (Descends(pages, no, d, key, cmp) <==> Has(EntriesOf(pages, no, d), key, cmp))
       <==> KeyClosed(pages, no, d, key, cmp)
    decreases d
  {
    hide *;
    FormedPage(pages, no, d, cmp);
    if PageAt(pages, no).InnerPage? {
      var es := PageAt(pages, no).entries;
      var c := Choice(es, key, cmp);
      InnerEntries(pages, no, d, cmp);
      TieNotRight(pages, es, d - 1, cmp, key);
      DescendsInner(pages, no, d, key, cmp);
      KeyClosedInner(pages, no, d, key, cmp);
      DescentExact(pages, es[c].pageNo, d - 1, key, cmp);
      if Descends(pages, es[c].pageNo, d - 1, key, cmp) { DescentSound(pages, es[c].pageNo, d - 1, key, cmp); }
    } else {
      LeafEntries(pages, no, d);
      DescendsLeaf(pages, no, d, key, cmp);
      KeyClosedLeaf(pages, no, d, key, cmp);
    }
  }

  /** On closed trees the descent is right for every key, and where no subtree is empty only on those. */
  lemma ClosedExact(pages: seq<IndexPage>, no: int, d: nat, cmp: (Key, Key) -> int)
    requires Preorder(cmp) && WellFormed(pages, no, d, cmp)
    ensures AllClosed(pages, no, d, cmp) ==> forall key :: KeyClosed(pages, no, d, key, cmp)
    ensures NoneEmpty(pages, no, d) && (forall key :: KeyClosed(pages, no, d, key, cmp)) ==>
      AllClosed(pages, no, d, cmp)
  {
    hide *;
    if AllClosed(pages, no, d, cmp) {
      forall key
        ensures KeyClosed(pages, no, d, key, cmp)
      {
        DescentExact(pages, no, d, key, cmp);
        if Descends(pages, no, d, key, cmp) { DescentSound(pages, no, d, key, cmp); }
        if Has(EntriesOf(pages, no, d), key, cmp) { DescentComplete(pages, no, d, key, cmp); }
      }
    } else if NoneEmpty(pages, no, d) {
      var key, above := OpenTreeMisses(pages, no, d, cmp);
      MissedKey(pages, no, d, key, above, cmp);
      DescentExact(pages, no, d, key, cmp);
    }
  }

  lemma MissedKey(pages: seq<IndexPage>, no: int, d: nat, key: Key, above: Entry, cmp: (Key, Key) -> int)
    requires Missed(pages, no, d, key, above, cmp)
    ensures Has(EntriesOf(pages, no, d), key, cmp) && !Descends(pages, no, d, key, cmp)
  {
  }

  // -- the descent ---------------------------------------------------------------------------------

  /** Descends from the root. On a well-formed tree of at most 64 levels it finds what the descent by the
      rightmost separators not above the key ends at; whatever the links, it ends, and what it finds is a tie. */
  method SearchTree(pages: seq<IndexPage>, root: int, key: Key, cmp: (Key, Key) -> int) returns (r: SearchResult)
    ensures r.Found? ==> cmp(r.e.key, key) == 0
    ensures Preorder(cmp) && WellFormed(pages, root, MAX_DEPTH, cmp) ==>
      && r != Malformed
      && (r.Found? <==> Descends(pages, root, MAX_DEPTH, key, cmp))
      && (r.Found? ==> r.e in EntriesOf(pages, root, MAX_DEPTH))
  {
    var no: int, left: nat := root, MAX_DEPTH;
    ghost var good := Preorder(cmp) && WellFormed(pages, root, MAX_DEPTH, cmp);
    while left > 0
      invariant left <= MAX_DEPTH
      invariant good ==> WellFormed(pages, no, left, cmp)
      invariant good ==> (Descends(pages, root, MAX_DEPTH, key, cmp) <==> Descends(pages, no, left, key, cmp))
      invariant good ==> forall e :: e in EntriesOf(pages, no, left) ==> e in EntriesOf(pages, root, MAX_DEPTH)
      decreases left
    {
      hide EntriesOf, Has, Preorder, Choice, Descends;
      match PageAt(pages, no) {
        case Unreadable =>
          return Malformed;
        case LeafPage(es, _) =>
          LeafEntries(pages, no, left);
          DescendsLeaf(pages, no, left, key, cmp);
          r := FindInLeaf(es, key, cmp);
          return;
        case InnerPage(es) =>
          if es == [] { return Malformed; }
          ghost var c;
          ghost var parent := no;
          no, c := ChildPageNo(es, key, cmp);
          if good {
            DescendsInner(pages, parent, left, key, cmp);
            ChildInside(pages, parent, left, c);
          }
      }
      left := left - 1;
    }
    r := Malformed;
  }

  lemma DescendsLeaf(pages: seq<IndexPage>, no: int, d: nat, key: Key, cmp: (Key, Key) -> int)
    requires d > 0 && PageAt(pages, no).LeafPage?
    ensures Descends(pages, no, d, key, cmp) <==> Has(PageAt(pages, no).entries, key, cmp)
  {
  }

  lemma DescendsInner(pages: seq<IndexPage>, no: int, d: nat, key: Key, cmp: (Key, Key) -> int)
    requires d > 0 && PageAt(pages, no).InnerPage? && PageAt(pages, no).entries != []
    ensures var es := PageAt(pages, no).entries;
      Descends(pages, no, d, key, cmp) <==> Descends(pages, es[Choice(es, key, cmp)].pageNo, d - 1, key, cmp)
  {
  }

  lemma ChildInside(pages: seq<IndexPage>, no: int, d: nat, c: nat)
    requires d > 0 && PageAt(pages, no).InnerPage? && c < |PageAt(pages, no).entries|
    ensures forall e :: e in EntriesOf(pages, PageAt(pages, no).entries[c].pageNo, d - 1) ==>
      e in EntriesOf(pages, no, d)
  {
    var es := PageAt(pages, no).entries;
    forall e | e in EntriesOf(pages, es[c].pageNo, d - 1)
      ensures e in EntriesOf(pages, no, d)
    {
      InChildren(pages, es, d - 1, e);
    }
  }

  // -- the scan ------------------------------------------------------------------------------------

  /** The leaves below a page, left to right. */
  ghost function LeavesOf(pages: seq<IndexPage>, no: int, d: nat): seq<int>
    decreases d, 0
  {
    if d == 0 then []
    else
      match PageAt(pages, no)
      case Unreadable => []
      case LeafPage(_, _) => [no]
      case InnerPage(es) => ChildLeaves(pages, es, d - 1)
  }

  ghost function ChildLeaves(pages: seq<IndexPage>, es: seq<Entry>, d: nat): seq<int>
    decreases d, |es| + 1
  {
    if es == [] then [] else ChildLeaves(pages, es[..|es| - 1], d) + LeavesOf(pages, es[|es| - 1].pageNo, d)
  }

  /** The entries of the leaves, one leaf after the other. */
  function LeafEntriesOf(pages: seq<IndexPage>, leaves: seq<int>): seq<Entry>
  {
    if leaves == [] then []
    else
      var last := PageAt(pages, leaves[|leaves| - 1]);
      LeafEntriesOf(pages, leaves[..|leaves| - 1]) + if last.LeafPage? then last.entries else []
  }

  /** The entries of one page, when it is a leaf. */
  function EntriesAt(pages: seq<IndexPage>, no: int): seq<Entry>
  {
    if PageAt(pages, no).LeafPage? then PageAt(pages, no).entries else []
  }

  lemma LeafEntriesLast(pages: seq<IndexPage>, leaves: seq<int>, last: int)
    ensures LeafEntriesOf(pages, leaves + [last]) == LeafEntriesOf(pages, leaves) + EntriesAt(pages, last)
  {
    assert (leaves + [last])[..|leaves|] == leaves;
  }

  lemma {:induction false} LeafEntriesConcat(pages: seq<IndexPage>, a: seq<int>, b: seq<int>)
    ensures LeafEntriesOf(pages, a + b) == LeafEntriesOf(pages, a) + LeafEntriesOf(pages, b)
  {
    if b == [] {
      assert a + b == a;
    } else {
      hide *;
      var init, last := b[..|b| - 1], b[|b| - 1];
      LeafEntriesConcat(pages, a, init);
      assert b == init + [last] && a + b == (a + init) + [last];
      LeafEntriesLast(pages, init, last);
      LeafEntriesLast(pages, a + init, last);
      ConcatAssoc(LeafEntriesOf(pages, a), LeafEntriesOf(pages, init), EntriesAt(pages, last));
    }
  }

  /** The entries below a page are those of its leaves. */
  lemma {:induction false} EntriesByLeaf(pages: seq<IndexPage>, no: int, d: nat)
    ensures EntriesOf(pages, no, d) == LeafEntriesOf(pages, LeavesOf(pages, no, d))
    decreases d, 0
  {
    if d > 0 {
      match PageAt(pages, no)
      case Unreadable =>
      case LeafPage(es, _) =>
        assert [no][..0] == [];
        assert LeafEntriesOf(pages, [no]) == [] + es;
      case InnerPage(es) => EntriesByChild(pages, es, d - 1);
    }
  }

  lemma {:induction false} EntriesByChild(pages: seq<IndexPage>, es: seq<Entry>, d: nat)
    ensures ChildEntries(pages, es, d) == LeafEntriesOf(pages, ChildLeaves(pages, es, d))
    decreases d, |es| + 1
  {
    hide EntriesOf, LeavesOf, LeafEntriesOf;
    if es != [] {
      EntriesByChild(pages, es[..|es| - 1], d);
      EntriesByLeaf(pages, es[|es| - 1].pageNo, d);
      LeafEntriesConcat(pages, ChildLeaves(pages, es[..|es| - 1], d), LeavesOf(pages, es[|es| - 1].pageNo, d));
    } else {
      NothingListed(pages);
    }
  }

  lemma NothingListed(pages: seq<IndexPage>)
    ensures LeafEntriesOf(pages, []) == []
  {
  }

  /** The right links join the leaves in order, and no leaf comes twice. */
  ghost predicate Joined(pages: seq<IndexPage>, leaves: seq<int>)
  {
    && leaves != []
    && (forall i :: 0 <= i < |leaves| ==> PageAt(pages, leaves[i]).LeafPage? && leaves[i] >= 0)
    && (forall i :: 0 <= i < |leaves| - 1 ==> PageAt(pages, leaves[i]).right == leaves[i + 1])
    && PageAt(pages, leaves[|leaves| - 1]).right < 0
    && (forall i, j :: 0 <= i < j < |leaves| ==> leaves[i] != leaves[j])
  }

  lemma {:induction false} LeavesExist(pages: seq<IndexPage>, no: int, d: nat, cmp: (Key, Key) -> int)
    requires WellFormed(pages, no, d, cmp)
    ensures LeavesOf(pages, no, d) != []
    decreases d
  {
    if PageAt(pages, no).InnerPage? {
      var es := PageAt(pages, no).entries;
      LeavesExist(pages, es[|es| - 1].pageNo, d - 1, cmp);
    }
  }

  lemma {:induction false} FirstChildFirst(pages: seq<IndexPage>, es: seq<Entry>, d: nat)
    requires es != []
    ensures LeavesOf(pages, es[0].pageNo, d) <= ChildLeaves(pages, es, d)
    decreases |es|
  {
    hide LeavesOf;
    if |es| > 1 {
      FirstChildFirst(pages, es[..|es| - 1], d);
    } else {
      assert es[..0] == [];
      assert ChildLeaves(pages, es, d) == [] + LeavesOf(pages, es[0].pageNo, d);
    }
  }

  /** The leaf at the end of the leftmost way down, or -1 when that breaks off or is longer than d. */
  function LeftmostOf(pages: seq<IndexPage>, no: int, d: nat): (r: int)
    ensures r >= 0 ==> PageAt(pages, r).LeafPage?
    decreases d
  {
    if d == 0 then -1
    else
      match PageAt(pages, no)
      case Unreadable => -1
      case LeafPage(_, _) => no
      case InnerPage(es) => if es == [] then -1 else LeftmostOf(pages, es[0].pageNo, d - 1)
  }

  /** The leftmost leaf below a page, or -1 when the descent fails. */
  method FindLeftmostLeaf(pages: seq<IndexPage>, root: int, ghost cmp: (Key, Key) -> int) returns (no: int)
    ensures no == LeftmostOf(pages, root, MAX_DEPTH)
    ensures WellFormed(pages, root, MAX_DEPTH, cmp) ==>
      LeavesOf(pages, root, MAX_DEPTH) != [] && no == LeavesOf(pages, root, MAX_DEPTH)[0] >= 0
  {
    no := root;
    var left: nat := MAX_DEPTH;
    ghost var good, all := WellFormed(pages, root, MAX_DEPTH, cmp), LeavesOf(pages, root, MAX_DEPTH);
    while left > 0
      invariant left <= MAX_DEPTH
      invariant good ==> WellFormed(pages, no, left, cmp) && LeavesOf(pages, no, left) <= all
      invariant LeftmostOf(pages, root, MAX_DEPTH) == LeftmostOf(pages, no, left)
      decreases left
    {
      hide ChildLeaves;
      if good { LeavesExist(pages, no, left, cmp); }
      match PageAt(pages, no) {
        case Unreadable => return -1;
        case LeafPage(_, _) => return;
        case InnerPage(es) =>
          if es == [] { return -1; }
          FirstChildFirst(pages, es, left - 1);
          PrefixThrough(LeavesOf(pages, es[0].pageNo, left - 1), ChildLeaves(pages, es, left - 1), all);
          no := es[0].pageNo;
      }
      left := left - 1;
    }
    no := -1;
  }

  lemma PrefixThrough<T>(a: seq<T>, b: seq<T>, c: seq<T>)
    requires a <= b
    ensures b <= c ==> a <= c
  {
  }

  /** How far the scan has come: the leaves before i are read. */
  ghost predicate Scanned(pages: seq<IndexPage>, leaves: seq<int>, i: nat, visited: set<int>, no: int, all: seq<Entry>)
  {
    && i <= |leaves| && all == LeafEntriesOf(pages, leaves[..i])
    && (forall x :: x in visited <==> exists k :: 0 <= k < i && leaves[k] == x)
    && (if i < |leaves| then no == leaves[i] else no < 0)
  }

  lemma ScanStart(pages: seq<IndexPage>, leaves: seq<int>)
    requires Joined(pages, leaves)
    ensures Scanned(pages, leaves, 0, {}, leaves[0], [])
  {
  }

  lemma ScanStep(pages: seq<IndexPage>, leaves: seq<int>, i: nat, visited: set<int>, no: int, all: seq<Entry>)
    requires Joined(pages, leaves) && Scanned(pages, leaves, i, visited, no, all) && no >= 0
    ensures no !in visited && PageAt(pages, no).LeafPage?
    ensures Scanned(pages, leaves, i + 1, visited + {no}, PageAt(pages, no).right, all + PageAt(pages, no).entries)
  {
    assert leaves[..i + 1][..i] == leaves[..i];
  }

  /** Reads the leaf chain. On a well-formed tree whose leaves are joined in order the result is exactly
      the tree's entries; on any links at all it ends. */
  method ScanLeaves(pages: seq<IndexPage>, root: int, ghost cmp: (Key, Key) -> int) returns (r: Option<seq<Entry>>)
    ensures WellFormed(pages, root, MAX_DEPTH, cmp) && Joined(pages, LeavesOf(pages, root, MAX_DEPTH)) ==>
      r == Some(EntriesOf(pages, root, MAX_DEPTH))
  {
    hide *;
    ghost var leaves := LeavesOf(pages, root, MAX_DEPTH);
    ghost var good := WellFormed(pages, root, MAX_DEPTH, cmp) && Joined(pages, leaves);
    var no := FindLeftmostLeaf(pages, root, cmp);
    if no < 0 { return None; }
    EntriesByLeaf(pages, root, MAX_DEPTH);
    var all: seq<Entry>, visited: set<int> := [], {};
    ghost var i := 0;
    if good { ScanStart(pages, leaves); }
    while no >= 0
      invariant good ==> Scanned(pages, leaves, i, visited, no, all)
      invariant visited <= PageNumbers(|pages|)
      decreases |PageNumbers(|pages|) - visited|
    {
      if good { ScanStep(pages, leaves, i, visited, no, all); }
      if no in visited { return None; }
      ghost var before := visited;
      visited := visited + {no};
      if !PageAt(pages, no).LeafPage? { return None; }
      LeafNumbers(pages, no);
      FewerLeft(PageNumbers(|pages|), before, no);
      all := all + PageAt(pages, no).entries;
      no := PageAt(pages, no).right;
      i := i + 1;
    }
    if good { ScanEnd(pages, leaves, i, visited, no, all); }
    r := Some(all);
  }

  lemma ScanEnd(pages: seq<IndexPage>, leaves: seq<int>, i: nat, visited: set<int>, no: int, all: seq<Entry>)
    requires Joined(pages, leaves) && Scanned(pages, leaves, i, visited, no, all) && no < 0
    ensures all == LeafEntriesOf(pages, leaves)
  {
    assert leaves[..|leaves|] == leaves;
  }

  function PageNumbers(n: nat): (s: set<int>)
    ensures forall x: int :: x in s <==> 0 <= x < n
  {
    if n == 0 then {} else PageNumbers(n - 1) + {n - 1}
  }

  lemma LeafNumbers(pages: seq<IndexPage>, no: int)
    requires PageAt(pages, no).LeafPage?
    ensures no in PageNumbers(|pages|)
  {
  }

  lemma FewerLeft(all: set<int>, seen: set<int>, no: int)
    requires no in all && no !in seen
    ensures |all - (seen + {no})| < |all - seen|
  {
    assert all - seen == (all - (seen + {no})) + {no};
  }

  /** The descent and the scan agree on a key, the one finding it if and only if the other lists a tie, if and only if
      the tree is closed for the key; so for every key on a closed tree. */
  method SearchAgreesWithScan(pages: seq<IndexPage>, root: int, key: Key, cmp: (Key, Key) -> int)
    returns (found: SearchResult, all: Option<seq<Entry>>)
    requires Preorder(cmp) && WellFormed(pages, root, MAX_DEPTH, cmp)
    requires Joined(pages, LeavesOf(pages, root, MAX_DEPTH))
    ensures all.Some? && found != Malformed
    ensures found.Found? ==> found.e in all.value && cmp(found.e.key, key) == 0
    ensures (found.Found? <==> exists i :: 0 <= i < |all.value| && cmp(all.value[i].key, key) == 0)
       <==> KeyClosed(pages, root, MAX_DEPTH, key, cmp)
    ensures AllClosed(pages, root, MAX_DEPTH, cmp) ==> KeyClosed(pages, root, MAX_DEPTH, key, cmp)
  {
    found := SearchTree(pages, root, key, cmp);
    all := ScanLeaves(pages, root, cmp);
    hide WellFormed, AllClosed, KeyClosed, EntriesOf, Descends, Preorder, NoneEmpty;
    DescentExact(pages, root, MAX_DEPTH, key, cmp);
    ClosedExact(pages, root, MAX_DEPTH, cmp);
  }

  // -- a tie the descent misses ------------------------------------------------------------------------

  function FirstByte(k: Key): int
  {
    if k == [] then -1 else k[0]
  }

  function ByFirstByte(a: Key, b: Key): int
  {
    FirstByte(a) - FirstByte(b)
  }

  const LEFT: Entry := Entry([5], 10, 0)
  const RIGHT: Entry := Entry([7], 11, 0)

  /** A root whose second separator ties with a key to its left; its own child holds only a greater one. */
  function OpenTree(): seq<IndexPage>
  {
    [InnerPage([Entry([5], 1, 0), Entry([5], 2, 0)]), LeafPage([LEFT], 2), LeafPage([RIGHT], -1)]
  }

  function Roots(): seq<Entry>
  {
    [Entry([5], 1, 0), Entry([5], 2, 0)]
  }

  lemma OpenTreePages()
    ensures PageAt(OpenTree(), 0) == InnerPage(Roots()) && PageAt(OpenTree(), 1) == LeafPage([LEFT], 2)
    ensures PageAt(OpenTree(), 2) == LeafPage([RIGHT], -1)
    ensures |Roots()| == 2 && Roots()[0].pageNo == 1 && Roots()[1].pageNo == 2
    ensures Roots()[..1] == [Roots()[0]] && Roots()[..1][..0] == [] && Roots()[0].key == Roots()[1].key == [5]
  {
  }

  lemma ByteOrder()
    ensures Preorder(ByFirstByte) && ByFirstByte(LEFT.key, [5]) == 0 == ByFirstByte([5], [5])
    ensures ByFirstByte(RIGHT.key, [5]) == 2
  {
  }

  lemma OpenTreeEntries()
    ensures EntriesOf(OpenTree(), 1, 63) == [LEFT] && EntriesOf(OpenTree(), 2, 63) == [RIGHT]
    ensures EntriesOf(OpenTree(), 0, 64) == [LEFT, RIGHT]
  {
    hide OpenTree, LEFT, RIGHT, PageAt, Roots;
    OpenTreePages();
    var es, one := Roots(), Roots()[..1];
    assert ChildEntries(OpenTree(), one, 63) == [] + [LEFT];
    assert ChildEntries(OpenTree(), es, 63) == ChildEntries(OpenTree(), one, 63) + [RIGHT];
  }

  lemma OpenTreeLeaves()
    ensures LeavesOf(OpenTree(), 0, 64) == [1, 2] && Joined(OpenTree(), [1, 2])
  {
    hide OpenTree, LEFT, RIGHT, PageAt, Roots;
    OpenTreePages();
    var es, one := Roots(), Roots()[..1];
    assert ChildLeaves(OpenTree(), one, 63) == [] + [1];
    assert ChildLeaves(OpenTree(), es, 63) == ChildLeaves(OpenTree(), one, 63) + [2];
  }

  lemma OpenTreeSeparated()
    ensures Separated(OpenTree(), Roots(), 63, ByFirstByte, 1) && Sorted(Roots(), ByFirstByte)
  {
    hide OpenTree, PageAt, Roots, EntriesOf, ByFirstByte, Preorder;
    OpenTreePages();
    OpenTreeEntries();
    ByteOrder();
  }

  lemma LeafFormed(pages: seq<IndexPage>, no: int, d: nat, cmp: (Key, Key) -> int)
    requires d > 0 && PageAt(pages, no).LeafPage? && |PageAt(pages, no).entries| == 1
    ensures WellFormed(pages, no, d, cmp) && NoneEmpty(pages, no, d)
  {
  }

  lemma OpenTreeFormed()
    ensures WellFormed(OpenTree(), 0, 64, ByFirstByte) && NoneEmpty(OpenTree(), 0, 64)
  {
    hide OpenTree, PageAt, Roots, EntriesOf, ByFirstByte, Preorder, Separated, Sorted;
    OpenTreePages();
    OpenTreeEntries();
    OpenTreeSeparated();
    LeafFormed(OpenTree(), 1, 63, ByFirstByte);
    LeafFormed(OpenTree(), 2, 63, ByFirstByte);
  }

  lemma OpenTreeDescent()
    ensures !Descends(OpenTree(), 0, 64, [5], ByFirstByte)
  {
    hide OpenTree, PageAt, Roots, ByFirstByte, Preorder;
    OpenTreePages();
    ByteOrder();
    assert Choice(Roots(), [5], ByFirstByte) == 1;
    assert !Descends(OpenTree(), 2, 63, [5], ByFirstByte);
  }

  /** On that tree the scan lists the key and the descent does not find it. */
  method MissedTie() returns (r: SearchResult, all: Option<seq<Entry>>)
    ensures r == NotFound && all == Some([LEFT, RIGHT]) && ByFirstByte(LEFT.key, [5]) == 0
  {
    hide *;
    ByteOrder();
    OpenTreeEntries();
    OpenTreeLeaves();
    OpenTreeFormed();
    OpenTreeDescent();
    DepthIs();
    r := SearchTree(OpenTree(), 0, [5], ByFirstByte);
    all := ScanLeaves(OpenTree(), 0, ByFirstByte);
  }

  lemma DepthIs()
    ensures MAX_DEPTH == 64
  {
  }
}
