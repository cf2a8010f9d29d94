/** Readers and writers of byte streams that belong together, and how larger ones are put together from smaller. */
module Codecs {
  import opened Bits
  import opened LittleEndian

  type Bytes = seq<byte>

  datatype Read<+T> = Bad | Got(value: T, size: nat)

  /** A reader and a writer; which values the writer takes, which of those come back, and as what. */
  datatype Codec<!T> = Codec(read: Bytes -> Read<T>, write: T -> Bytes, accepts: T -> bool, sound: T -> bool,
                             norm: T -> T)

  /** What reading gives once x is written. */
  function Expected<T>(c: Codec<T>, x: T): Read<T>
  {
    if c.sound(x) then Got(c.norm(x), |c.write(x)|) else Bad
  }

  ghost predicate BackAt<T(!new)>(c: Codec<T>, x: T, t: Bytes)
  {
    c.accepts(x) ==> c.read(c.write(x) + t) == Expected(c, x)
  }

  ghost predicate LocalAt<T(!new)>(c: Codec<T>, s: Bytes, t: Bytes)
  {
    c.read(s).Got? ==> c.read(s).size <= |s| && c.read(s[..c.read(s).size] + t) == c.read(s)
  }

  /** What is written comes back exactly when it should, whatever follows it; and what is read depends on the bytes it
      takes alone. */
  ghost predicate Lawful<T(!new)>(c: Codec<T>)
  {
    && (forall x, t: Bytes :: BackAt(c, x, t))
    && forall s: Bytes, t: Bytes :: LocalAt(c, s, t)
  }

  ghost predicate RestoredAt<T(!new)>(c: Codec<T>, s: Bytes)
  {
    c.read(s).Got? ==>
      var x, n := c.read(s).value, c.read(s).size;
      n <= |s| && |c.write(x)| <= n && (|c.write(x)| == n ==> c.write(x) == s[..n])
  }

  /** Writing what was read needs no more bytes than it took, and the same bytes if it needs as many. */
  ghost predicate Restores<T(!new)>(c: Codec<T>)
  {
    forall s: Bytes :: RestoredAt(c, s)
  }

  /** Every value takes at least n bytes. */
  ghost predicate AtLeast<T(!new)>(c: Codec<T>, n: nat)
  {
    forall s: Bytes {:trigger c.read(s)} :: c.read(s).Got? ==> c.read(s).size >= n
  }

  // -- single instances of the laws ---------------------------------------------------------------------

  lemma Back<T(!new)>(c: Codec<T>, x: T, t: Bytes)
    requires Lawful(c) && c.accepts(x)
    ensures c.read(c.write(x) + t) == Expected(c, x)
  {
    assert BackAt(c, x, t);
  }

  lemma Same<T(!new)>(c: Codec<T>, s: Bytes, t: Bytes)
    requires Lawful(c) && c.read(s).Got?
    ensures c.read(s).size <= |s| && c.read(s[..c.read(s).size] + t) == c.read(s)
  {
    assert LocalAt(c, s, t);
  }

  lemma Whole<T(!new)>(c: Codec<T>, s: Bytes)
    requires Restores(c) && c.read(s).Got?
    ensures var x, n := c.read(s).value, c.read(s).size;
      n <= |s| && |c.write(x)| <= n && (|c.write(x)| == n ==> c.write(x) == s[..n])
  {
    assert RestoredAt(c, s);
  }

  lemma MakeLawful<T(!new)>(c: Codec<T>)
    requires forall x, t: Bytes :: BackAt(c, x, t)
    requires forall s: Bytes, t: Bytes :: LocalAt(c, s, t)
    ensures Lawful(c)
  {
  }

  lemma MakeRestores<T(!new)>(c: Codec<T>)
    requires forall s: Bytes :: RestoredAt(c, s)
    ensures Restores(c)
  {
  }

  // -- one after the other, the second chosen by the first ------------------------------------------------

  function ReadBind<A, B>(a: Codec<A>, f: A -> Codec<B>, s: Bytes): Read<(A, B)>
  {
    match a.read(s)
    case Bad => Bad
    case Got(x, n) =>
      if n > |s| then Bad
      else
        match f(x).read(s[n..])
        case Bad => Bad
        case Got(y, m) => Got((x, y), n + m)
  }

  function Bind<A, B>(a: Codec<A>, f: A -> Codec<B>): Codec<(A, B)>
  {
    Codec((s: Bytes) => ReadBind(a, f, s), (p: (A, B)) => a.write(p.0) + f(p.0).write(p.1),
          (p: (A, B)) => a.accepts(p.0) && f(p.0).accepts(p.1), (p: (A, B)) => a.sound(p.0) && f(p.0).sound(p.1),
          (p: (A, B)) => (a.norm(p.0), f(p.0).norm(p.1)))
  }

  /** What comes back of the first chooses the same second. */
  ghost predicate Steady<A(!new), B>(a: Codec<A>, f: A -> Codec<B>)
  {
    forall x :: f(a.norm(x)) == f(x)
  }

  lemma BindBack<A(!new), B(!new)>(a: Codec<A>, f: A -> Codec<B>, x: (A, B), t: Bytes)
    requires Lawful(a) && Lawful(f(x.0)) && Steady(a, f)
    ensures BackAt(Bind(a, f), x, t)
  {
    hide Lawful;
    var b := f(x.0);
    if a.accepts(x.0) && b.accepts(x.1) {
      var u, v := a.write(x.0), b.write(x.1);
      ConcatAssoc(u, v, t);
      Back(a, x.0, v + t);
      assert (u + v + t)[|u|..] == v + t;
      Back(b, x.1, t);
      assert f(a.norm(x.0)) == b;
    }
  }

  lemma BindLocal<A(!new), B(!new)>(a: Codec<A>, f: A -> Codec<B>, s: Bytes, t: Bytes)
    requires Lawful(a) && forall x :: Lawful(f(x))
    ensures LocalAt(Bind(a, f), s, t)
  {
    hide Lawful;
    if ReadBind(a, f, s).Got? {
      var n, b := a.read(s).size, f(a.read(s).value);
      Same(b, s[n..], t);
      var m := b.read(s[n..]).size;
      Same(a, s, s[n..n + m] + t);
      assert s[..n + m] + t == s[..n] + (s[n..n + m] + t);
      assert (s[..n + m] + t)[n..] == s[n..][..m] + t;
    }
  }

  lemma BothRestored(s: Bytes, k: nat, m: nat, u: Bytes, v: Bytes)
    requires k + m <= |s| && |u| <= k && |v| <= m
    requires (|u| == k ==> u == s[..k]) && (|v| == m ==> v == s[k..][..m])
    ensures |u + v| <= k + m && (|u + v| == k + m ==> u + v == s[..k + m])
  {
    assert s[..k + m] == s[..k] + s[k..][..m];
  }

  lemma BindRestored<A(!new), B(!new)>(a: Codec<A>, f: A -> Codec<B>, s: Bytes)
    requires Restores(a) && forall x :: Restores(f(x))
    ensures RestoredAt(Bind(a, f), s)
  {
    hide Restores;
    if ReadBind(a, f, s).Got? {
      var n, b := a.read(s).size, f(a.read(s).value);
      Whole(a, s);
      Whole(b, s[n..]);
      BothRestored(s, n, b.read(s[n..]).size, a.write(a.read(s).value), b.write(b.read(s[n..]).value));
    }
  }

  lemma BindLawful<A(!new), B(!new)>(a: Codec<A>, f: A -> Codec<B>)
    requires Lawful(a) && (forall x :: Lawful(f(x))) && Steady(a, f)
    ensures Lawful(Bind(a, f))
  {
    hide BackAt, LocalAt, Steady;
    forall x, t: Bytes ensures BackAt(Bind(a, f), x, t) { BindBack(a, f, x, t); }
    forall s: Bytes, t: Bytes ensures LocalAt(Bind(a, f), s, t) { BindLocal(a, f, s, t); }
  }

  lemma BindRestores<A(!new), B(!new)>(a: Codec<A>, f: A -> Codec<B>)
    requires Restores(a) && forall x :: Restores(f(x))
    ensures Restores(Bind(a, f))
  {
    hide RestoredAt;
    forall s: Bytes ensures RestoredAt(Bind(a, f), s) { BindRestored(a, f, s); }
  }

  lemma BindAtLeast<A(!new), B(!new)>(a: Codec<A>, f: A -> Codec<B>, n: nat, m: nat)
    requires AtLeast(a, n) && forall x :: AtLeast(f(x), m)
    ensures AtLeast(Bind(a, f), n + m)
  {
    forall s: Bytes | ReadBind(a, f, s).Got?
      ensures ReadBind(a, f, s).size >= n + m
    {
      assert AtLeast(f(a.read(s).value), m);
    }
  }

  // -- one after the other --------------------------------------------------------------------------------

  function Pair<A, B>(a: Codec<A>, b: Codec<B>): Codec<(A, B)>
  {
    Bind(a, (x: A) => b)
  }

  lemma PairLawful<A(!new), B(!new)>(a: Codec<A>, b: Codec<B>)
    requires Lawful(a) && Lawful(b)
    ensures Lawful(Pair(a, b))
  {
    hide Lawful;
    BindLawful(a, (x: A) => b);
  }

  lemma PairRestores<A(!new), B(!new)>(a: Codec<A>, b: Codec<B>)
    requires Restores(a) && Restores(b)
    ensures Restores(Pair(a, b))
  {
    hide Restores;
    BindRestores(a, (x: A) => b);
  }

  lemma PairAtLeast<A(!new), B(!new)>(a: Codec<A>, b: Codec<B>, n: nat, m: nat)
    requires AtLeast(a, n) && AtLeast(b, m)
    ensures AtLeast(Pair(a, b), n + m)
  {
    hide AtLeast;
    BindAtLeast(a, (x: A) => b, n, m);
  }

  lemma BindParts<A, B>(a: Codec<A>, f: A -> Codec<B>, x: (A, B))
    ensures Bind(a, f).accepts(x) <==> a.accepts(x.0) && f(x.0).accepts(x.1)
    ensures Bind(a, f).sound(x) <==> a.sound(x.0) && f(x.0).sound(x.1)
  {
  }

  lemma PairParts<A, B>(a: Codec<A>, b: Codec<B>, x: (A, B))
    ensures Pair(a, b).accepts(x) <==> a.accepts(x.0) && b.accepts(x.1)
    ensures Pair(a, b).sound(x) <==> a.sound(x.0) && b.sound(x.1)
  {
  }

  // -- in another shape ------------------------------------------------------------------------------------

  function ReadAs<A, B>(a: Codec<A>, to: A -> Read<B>, s: Bytes): Read<B>
  {
    match a.read(s)
    case Bad => Bad
    case Got(x, n) =>
      match to(x)
      case Bad => Bad
      case Got(y, _) => Got(y, n)
  }

  /** The same bytes, seen as values of another type; values `to` refuses are not read. */
  function As<A, B>(a: Codec<A>, to: A -> Read<B>, from: B -> A, fits: B -> bool, norm: B -> B): Codec<B>
  {
    Codec((s: Bytes) => ReadAs(a, to, s), (y: B) => a.write(from(y)), (y: B) => fits(y) && a.accepts(from(y)),
          (y: B) => a.sound(from(y)), norm)
  }

  /** What is written in the first type is taken back in the second. */
  ghost predicate Matches<A, B(!new)>(a: Codec<A>, to: A -> Read<B>, from: B -> A, fits: B -> bool, norm: B -> B)
  {
    forall y {:trigger norm(y)} :: fits(y) && a.accepts(from(y)) && a.sound(from(y)) ==>
      to(a.norm(from(y))).Got? && to(a.norm(from(y))).value == norm(y)
  }

  lemma AsLawful<A(!new), B(!new)>(a: Codec<A>, to: A -> Read<B>, from: B -> A, fits: B -> bool, norm: B -> B)
    requires Lawful(a) && Matches(a, to, from, fits, norm)
    ensures Lawful(As(a, to, from, fits, norm))
  {
    hide Lawful;
    var c := As(a, to, from, fits, norm);
    forall y, t: Bytes
      ensures BackAt(c, y, t)
    {
      if c.accepts(y) { Back(a, from(y), t); }
    }
    forall s: Bytes, t: Bytes
      ensures LocalAt(c, s, t)
    {
      if c.read(s).Got? { Same(a, s, t); }
    }
    MakeLawful(c);
  }

  /** What is taken is written as what it was. */
  ghost predicate Undone<A(!new), B>(to: A -> Read<B>, from: B -> A)
  {
    forall x {:trigger to(x)} :: to(x).Got? ==> from(to(x).value) == x
  }

  lemma AsRestores<A(!new), B(!new)>(a: Codec<A>, to: A -> Read<B>, from: B -> A, fits: B -> bool, norm: B -> B)
    requires Restores(a) && Undone(to, from)
    ensures Restores(As(a, to, from, fits, norm))
  {
    hide Restores;
    var c := As(a, to, from, fits, norm);
    forall s: Bytes
      ensures RestoredAt(c, s)
    {
      if c.read(s).Got? { Whole(a, s); }
    }
    MakeRestores(c);
  }

  lemma AsAtLeast<A(!new), B(!new)>(a: Codec<A>, to: A -> Read<B>, from: B -> A, fits: B -> bool, norm: B -> B, n: nat)
    requires AtLeast(a, n)
    ensures AtLeast(As(a, to, from, fits, norm), n)
  {
  }

  lemma AsParts<A, B>(a: Codec<A>, to: A -> Read<B>, from: B -> A, fits: B -> bool, norm: B -> B, y: B)
    ensures As(a, to, from, fits, norm).accepts(y) <==> fits(y) && a.accepts(from(y))
    ensures As(a, to, from, fits, norm).sound(y) <==> a.sound(from(y))
  {
  }

  // -- so many in a row ----------------------------------------------------------------------------------------

  function ReadList<A>(a: Codec<A>, n: nat, s: Bytes): Read<seq<A>>
  {
    if n == 0 then Got([], 0) else ReadNext(a, ReadList(a, n - 1, s), s)
  }

  /** One item more, behind those already read. */
  function ReadNext<A>(a: Codec<A>, r: Read<seq<A>>, s: Bytes): Read<seq<A>>
  {
    match r
    case Bad => Bad
    case Got(xs, k) =>
      if k > |s| then Bad
      else
        match a.read(s[k..])
        case Bad => Bad
        case Got(x, m) => Got(xs + [x], k + m)
  }

  function WriteList<A>(a: Codec<A>, xs: seq<A>): Bytes
  {
    if xs == [] then [] else WriteList(a, xs[..|xs| - 1]) + a.write(xs[|xs| - 1])
  }

  function NormList<A>(a: Codec<A>, xs: seq<A>): (ys: seq<A>)
    ensures |ys| == |xs| && forall i :: 0 <= i < |xs| ==> ys[i] == a.norm(xs[i])
  {
    seq(|xs|, i requires 0 <= i < |xs| => a.norm(xs[i]))
  }

  predicate AllAccepted<A>(a: Codec<A>, xs: seq<A>)
  {
    forall i :: 0 <= i < |xs| ==> a.accepts(xs[i])
  }

  predicate AllSound<A>(a: Codec<A>, xs: seq<A>)
  {
    forall i :: 0 <= i < |xs| ==> a.sound(xs[i])
  }

  function List<A>(a: Codec<A>, n: nat): Codec<seq<A>>
  {
    Codec((s: Bytes) => ReadList(a, n, s), (xs: seq<A>) => WriteList(a, xs),
          (xs: seq<A>) => |xs| == n && AllAccepted(a, xs), (xs: seq<A>) => AllSound(a, xs),
          (xs: seq<A>) => NormList(a, xs))
  }

  lemma WriteLast<A>(a: Codec<A>, xs: seq<A>, x: A)
    ensures WriteList(a, xs + [x]) == WriteList(a, xs) + a.write(x)
    ensures NormList(a, xs + [x]) == NormList(a, xs) + [a.norm(x)]
    ensures AllAccepted(a, xs + [x]) <==> AllAccepted(a, xs) && a.accepts(x)
    ensures AllSound(a, xs + [x]) <==> AllSound(a, xs) && a.sound(x)
  {
    var ys := xs + [x];
    assert ys[..|xs|] == xs && ys[|xs|] == x;
    assert forall i :: 0 <= i < |xs| ==> ys[i] == xs[i];
  }

  lemma {:induction false} ListBack<A(!new)>(a: Codec<A>, xs: seq<A>, t: Bytes)
    requires Lawful(a) && AllAccepted(a, xs)
    ensures ReadList(a, |xs|, WriteList(a, xs) + t) == Expected(List(a, |xs|), xs)
  {
    hide Lawful, WriteList, AllAccepted, AllSound;
    if xs != [] {
      var init, x := xs[..|xs| - 1], xs[|xs| - 1];
      assert xs == init + [x];
      WriteLast(a, init, x);
      var u, v := WriteList(a, init), a.write(x);
      ListBack(a, init, v + t);
      ConcatAssoc(u, v, t);
      assert (u + v + t)[|u|..] == v + t;
      Back(a, x, t);
    } else {
      NothingWritten(a);
    }
  }

  lemma NothingWritten<A>(a: Codec<A>)
    ensures WriteList(a, []) == [] && NormList(a, []) == [] && AllSound(a, [])
  {
  }

  lemma {:induction false} ListLocal<A(!new)>(a: Codec<A>, n: nat, s: Bytes, t: Bytes)
    requires Lawful(a) && ReadList(a, n, s).Got?
    ensures |ReadList(a, n, s).value| == n && ReadList(a, n, s).size <= |s|
    ensures ReadList(a, n, s[..ReadList(a, n, s).size] + t) == ReadList(a, n, s)
  {
    hide Lawful, ReadNext;
    if n > 0 {
      var r := ReadList(a, n - 1, s);
      NextLocal(a, r, s, t);
      var l := ReadNext(a, r, s).size;
      ListLocal(a, n - 1, s, s[r.size..l] + t);
      SlicedTwice(s, r.size, l, t);
    }
  }

  lemma SlicedTwice(s: Bytes, k: nat, l: nat, t: Bytes)
    requires k <= l <= |s|
    ensures s[..l] + t == s[..k] + (s[k..l] + t) && (s[..l] + t)[k..] == s[k..][..l - k] + t
  {
  }

  lemma NextLocal<A(!new)>(a: Codec<A>, r: Read<seq<A>>, s: Bytes, t: Bytes)
    requires Lawful(a) && ReadNext(a, r, s).Got?
    ensures r.Got? && |ReadNext(a, r, s).value| == |r.value| + 1 && r.size <= ReadNext(a, r, s).size <= |s|
    ensures ReadNext(a, r, s[..ReadNext(a, r, s).size] + t) == ReadNext(a, r, s)
  {
    hide Lawful;
    Same(a, s[r.size..], t);
    SlicedTwice(s, r.size, ReadNext(a, r, s).size, t);
  }

  lemma ListLawful<A(!new)>(a: Codec<A>, n: nat)
    requires Lawful(a)
    ensures Lawful(List(a, n))
  {
    hide Lawful;
    forall xs: seq<A>, t: Bytes
      ensures BackAt(List(a, n), xs, t)
    {
      if |xs| == n && AllAccepted(a, xs) { ListBack(a, xs, t); }
    }
    forall s: Bytes, t: Bytes
      ensures LocalAt(List(a, n), s, t)
    {
      if ReadList(a, n, s).Got? { ListLocal(a, n, s, t); }
    }
    MakeLawful(List(a, n));
  }

  lemma {:induction false} ListRestored<A(!new)>(a: Codec<A>, n: nat, s: Bytes)
    requires Restores(a) && ReadList(a, n, s).Got?
    ensures var xs, k := ReadList(a, n, s).value, ReadList(a, n, s).size;
      |xs| == n && k <= |s| && |WriteList(a, xs)| <= k && (|WriteList(a, xs)| == k ==> WriteList(a, xs) == s[..k])
  {
    hide Restores, WriteList;
    if n > 0 {
      ListRestored(a, n - 1, s);
      var xs, k := ReadList(a, n - 1, s).value, ReadList(a, n - 1, s).size;
      Whole(a, s[k..]);
      var x, m := a.read(s[k..]).value, a.read(s[k..]).size;
      WriteLast(a, xs, x);
      BothRestored(s, k, m, WriteList(a, xs), a.write(x));
    } else {
      NothingWritten(a);
    }
  }

  lemma ListRestores<A(!new)>(a: Codec<A>, n: nat)
    requires Restores(a)
    ensures Restores(List(a, n))
  {
    hide Restores;
    forall s: Bytes
      ensures RestoredAt(List(a, n), s)
    {
      if ReadList(a, n, s).Got? { ListRestored(a, n, s); }
    }
    MakeRestores(List(a, n));
  }

  lemma {:induction false} ListAtLeast<A(!new)>(a: Codec<A>, per: nat, n: nat, s: Bytes)
    requires AtLeast(a, per) && ReadList(a, n, s).Got?
    ensures ReadList(a, n, s).size >= n * per
  {
    if n > 0 { ListAtLeast(a, per, n - 1, s); }
  }

  function Joined<A>(r: Read<seq<A>>, q: Read<seq<A>>): Read<seq<A>>
  {
    if r.Bad? || q.Bad? then Bad else Got(r.value + q.value, r.size + q.size)
  }

  lemma NextJoined<A>(a: Codec<A>, r: Read<seq<A>>, q: Read<seq<A>>, s: Bytes)
    requires r.Got? && r.size <= |s|
    ensures ReadNext(a, Joined(r, q), s) == Joined(r, ReadNext(a, q, s[r.size..]))
  {
    if q.Got? && r.size + q.size <= |s| {
      assert s[r.size..][q.size..] == s[r.size + q.size..];
      if a.read(s[r.size + q.size..]).Got? {
        ConcatAssoc(r.value, q.value, [a.read(s[r.size + q.size..]).value]);
      }
    }
  }

  /** A list is read in two stretches. */
  lemma {:induction false} ListSplit<A(!new)>(a: Codec<A>, n: nat, m: nat, s: Bytes)
    requires Lawful(a) && ReadList(a, n, s).Got?
    ensures ReadList(a, n, s).size <= |s|
    ensures ReadList(a, n + m, s) == Joined(ReadList(a, n, s), ReadList(a, m, s[ReadList(a, n, s).size..]))
  {
    hide Lawful, ReadNext;
    ListLocal(a, n, s, []);
    var r := ReadList(a, n, s);
    if m == 0 {
      assert r.value + [] == r.value;
    } else {
      ListSplit(a, n, m - 1, s);
      NextJoined(a, r, ReadList(a, m - 1, s[r.size..]), s);
    }
  }

  lemma {:induction false} ListPrefix<A>(a: Codec<A>, n: nat, i: nat, s: Bytes)
    requires ReadList(a, n, s).Got? && i <= n
    ensures ReadList(a, i, s).Got?
  {
    if i < n { ListPrefix(a, n - 1, i, s); }
  }

  /** Where item i of a list starts. */
  function StartOf<A>(a: Codec<A>, i: nat, s: Bytes): nat
    requires ReadList(a, i, s).Got?
  {
    ReadList(a, i, s).size
  }

  lemma Starts<A(!new)>(a: Codec<A>, n: nat, i: nat, s: Bytes)
    requires Lawful(a) && ReadList(a, n, s).Got? && i <= n
    ensures ReadList(a, i, s).Got? && |ReadList(a, n, s).value| == n
    ensures ReadList(a, i, s).value == ReadList(a, n, s).value[..i]
    ensures StartOf(a, i, s) <= StartOf(a, n, s) <= |s|
  {
    hide Lawful, ReadList;
    ListPrefix(a, n, i, s);
    ListSplit(a, i, n - i, s);
    ListLocal(a, n, s, []);
    ListLocal(a, i, s, []);
  }

  /** Item i cut out of the bytes is cut out of the list. */
  lemma ListWithout<A(!new)>(a: Codec<A>, n: nat, i: nat, s: Bytes)
    requires Lawful(a) && ReadList(a, n, s).Got? && i < n
    ensures |ReadList(a, n, s).value| == n
    ensures ReadList(a, i, s).Got? && ReadList(a, i + 1, s).Got?
    ensures StartOf(a, i, s) <= StartOf(a, i + 1, s) <= StartOf(a, n, s) <= |s|
    ensures var xs, k, l := ReadList(a, n, s).value, StartOf(a, i, s), StartOf(a, i + 1, s);
      ReadList(a, n - 1, s[..k] + s[l..]) == Got(xs[..i] + xs[i + 1..], StartOf(a, n, s) - (l - k))
  {
    hide Lawful, ReadList;
    Starts(a, n, i + 1, s);
    Starts(a, i + 1, i, s);
    var k, l := StartOf(a, i, s), StartOf(a, i + 1, s);
    ListSplit(a, i + 1, n - i - 1, s);
    ListLocal(a, i, s, s[l..]);
    ListSplit(a, i, n - i - 1, s[..k] + s[l..]);
    assert (s[..k] + s[l..])[k..] == s[l..];
    var xs := ReadList(a, n, s).value;
    assert xs[..i] == xs[..i + 1][..i];
  }

  /** An item written behind a list is read as its last, if it comes back at all. */
  lemma ListWith<A(!new)>(a: Codec<A>, n: nat, s: Bytes, x: A)
    requires Lawful(a) && ReadList(a, n, s).Got? && ReadList(a, n, s).size == |s| && a.accepts(x)
    ensures ReadList(a, n + 1, s + a.write(x))
         == if a.sound(x) then Got(ReadList(a, n, s).value + [a.norm(x)], |s| + |a.write(x)|) else Bad
  {
    hide Lawful;
    var w := a.write(x);
    ListLocal(a, n, s, w);
    assert s[..|s|] + w == s + w && (s + w)[|s|..] == w;
    Back(a, x, []);
    assert w + [] == w;
  }

  // -- a count, a head, and so many items ---------------------------------------------------------------------

  /** How many items may be announced: between two limits, and no more than the bytes left can hold. */
  datatype Limits = Limits(lo: nat, hi: nat, per: nat, extra: nat)
  {
    predicate Valid() { per > 0 && hi < 0x1_0000_0000 }

    predicate Admits(n: nat, left: nat)
      requires per > 0
    {
      lo <= n <= hi && n <= (left + extra) / per
    }
  }

  function ReadCounted<H, A>(l: Limits, head: Codec<H>, item: Codec<A>, s: Bytes): Read<(H, seq<A>)>
  {
    if |s| < 4 || l.per == 0 || !l.Admits(ReadLe32(s, 0), |s| - 4) then Bad
    else
      match Pair(head, List(item, ReadLe32(s, 0))).read(s[4..])
      case Bad => Bad
      case Got(p, n) => Got(p, 4 + n)
  }

  function WriteCounted<H, A>(head: Codec<H>, item: Codec<A>, p: (H, seq<A>)): Bytes
  {
    Le32(|p.1| % 0x1_0000_0000) + (head.write(p.0) + WriteList(item, p.1))
  }

  function Counted<H, A>(l: Limits, head: Codec<H>, item: Codec<A>): Codec<(H, seq<A>)>
  {
    Codec((s: Bytes) => ReadCounted(l, head, item, s), (p: (H, seq<A>)) => WriteCounted(head, item, p),
          (p: (H, seq<A>)) => l.lo <= |p.1| <= l.hi && head.accepts(p.0) && AllAccepted(item, p.1),
          (p: (H, seq<A>)) => head.sound(p.0) && AllSound(item, p.1),
          (p: (H, seq<A>)) => (head.norm(p.0), NormList(item, p.1)))
  }

  lemma CountedParts<H, A>(l: Limits, head: Codec<H>, item: Codec<A>, p: (H, seq<A>))
    ensures Counted(l, head, item).accepts(p)
       <==> l.lo <= |p.1| <= l.hi && head.accepts(p.0) && AllAccepted(item, p.1)
    ensures Counted(l, head, item).sound(p) <==> head.sound(p.0) && AllSound(item, p.1)
  {
  }

  /** Items that take as many bytes as the limit reckons leave the announced count admitted. */
  lemma StillAdmitted(l: Limits, n: nat, left: nat, size: nat)
    requires l.Valid() && l.lo <= n <= l.hi && n * l.per <= size <= left
    ensures l.Admits(n, left)
  {
    Quotient(n, l.per, left + l.extra);
  }

  lemma Quotient(n: nat, per: nat, size: nat)
    requires per > 0 && n * per <= size
    ensures n <= size / per
  {
    var q, r := size / per, size % per;
    assert size == per * q + r;
    if n > q {
      assert n >= q + 1;
      MulGrows(q + 1, n, per);
    }
  }

  lemma MulGrows(a: nat, b: nat, c: nat)
    requires a <= b
    ensures a * c <= b * c
  {
  }

  lemma CountedSize<H(!new), A(!new)>(l: Limits, head: Codec<H>, item: Codec<A>, n: nat, s: Bytes)
    requires Lawful(item) && AtLeast(item, l.per) && Pair(head, List(item, n)).read(s).Got?
    ensures n * l.per <= Pair(head, List(item, n)).read(s).size <= |s|
    ensures |Pair(head, List(item, n)).read(s).value.1| == n
  {
    hide Lawful;
    var k := head.read(s).size;
    ListLocal(item, n, s[k..], []);
    ListAtLeast(item, l.per, n, s[k..]);
  }

  lemma CountRead(n: nat, t: Bytes)
    requires n < 0x1_0000_0000
    ensures ReadLe32(Le32(n) + t, 0) == n && (Le32(n) + t)[4..] == t && |Le32(n) + t| == 4 + |t|
  {
    hide Le32, ReadLe32;
    Le32Reads(n);
    assert (Le32(n) + t)[0..4] == Le32(n)[0..4];
    ReadSame(Le32(n) + t, 0, Le32(n), 0);
  }

  /** Items behind their count are read as they are without it. */
  lemma CountedIs<H(!new), A(!new)>(l: Limits, head: Codec<H>, item: Codec<A>, n: nat, s: Bytes)
    requires l.Valid() && Lawful(item) && AtLeast(item, l.per) && n < 0x1_0000_0000
    ensures var r := Pair(head, List(item, n)).read(s);
      ReadCounted(l, head, item, Le32(n) + s)
      == if r.Bad? || !(l.lo <= n <= l.hi) then Bad else Got(r.value, 4 + r.size)
  {
    hide Lawful, AtLeast, Pair, List, Le32, ReadLe32;
    CountRead(n, s);
    var r := Pair(head, List(item, n)).read(s);
    if r.Got? && l.lo <= n <= l.hi {
      CountedSize(l, head, item, n, s);
      StillAdmitted(l, n, |s|, r.size);
    }
  }

  lemma CountedBack<H(!new), A(!new)>(l: Limits, head: Codec<H>, item: Codec<A>, p: (H, seq<A>), t: Bytes)
    requires l.Valid() && Lawful(head) && Lawful(item) && AtLeast(item, l.per)
    ensures BackAt(Counted(l, head, item), p, t)
  {
    hide Lawful, AtLeast, AllAccepted, AllSound, NormList, ReadCounted, ReadBind, Le32, WriteList;
    var n := |p.1|;
    if l.lo <= n <= l.hi && head.accepts(p.0) && AllAccepted(item, p.1) {
      ListLawful(item, n);
      PairLawful(head, List(item, n));
      Back(Pair(head, List(item, n)), p, t);
      var w := head.write(p.0) + WriteList(item, p.1);
      ConcatAssoc(Le32(n), w, t);
      CountedIs(l, head, item, n, w + t);
    }
  }

  lemma CountedLocal<H(!new), A(!new)>(l: Limits, head: Codec<H>, item: Codec<A>, s: Bytes, t: Bytes)
    requires l.Valid() && Lawful(head) && Lawful(item) && AtLeast(item, l.per)
    ensures LocalAt(Counted(l, head, item), s, t)
  {
    hide Lawful, AtLeast, ReadLe32, Le32, Pair, List;
    if ReadCounted(l, head, item, s).Got? {
      var n := ReadLe32(s, 0);
      var b := Pair(head, List(item, n));
      ListLawful(item, n);
      PairLawful(head, List(item, n));
      Same(b, s[4..], t);
      var k := b.read(s[4..]).size;
      Le32Writes(s, 0);
      assert s[..4 + k] + t == Le32(n) + (s[4..][..k] + t);
      CountedIs(l, head, item, n, s[4..][..k] + t);
    }
  }

  lemma CountedRestored<H(!new), A(!new)>(l: Limits, head: Codec<H>, item: Codec<A>, s: Bytes)
    requires l.Valid() && Restores(head) && Restores(item)
    ensures RestoredAt(Counted(l, head, item), s)
  {
    hide Restores, Le32, ReadLe32, ReadList, WriteList;
    if ReadCounted(l, head, item, s).Got? {
      var n := ReadLe32(s, 0);
      var b := Pair(head, List(item, n));
      ListRestores(item, n);
      PairRestores(head, List(item, n));
      Whole(b, s[4..]);
      var k := head.read(s[4..]).size;
      ListRestored(item, n, s[4..][k..]);
      var r := b.read(s[4..]);
      Le32Writes(s, 0);
      BothRestored(s, 4, r.size, Le32(n), b.write(r.value));
    }
  }

  lemma CountedLawful<H(!new), A(!new)>(l: Limits, head: Codec<H>, item: Codec<A>)
    requires l.Valid() && Lawful(head) && Lawful(item) && AtLeast(item, l.per)
    ensures Lawful(Counted(l, head, item)) && AtLeast(Counted(l, head, item), 4)
  {
    hide Lawful, BackAt, LocalAt;
    forall p, t: Bytes ensures BackAt(Counted(l, head, item), p, t) { CountedBack(l, head, item, p, t); }
    forall s: Bytes, t: Bytes ensures LocalAt(Counted(l, head, item), s, t) { CountedLocal(l, head, item, s, t); }
    MakeLawful(Counted(l, head, item));
  }

  lemma CountedRestores<H(!new), A(!new)>(l: Limits, head: Codec<H>, item: Codec<A>)
    requires l.Valid() && Restores(head) && Restores(item)
    ensures Restores(Counted(l, head, item))
  {
    hide Restores, RestoredAt;
    forall s: Bytes ensures RestoredAt(Counted(l, head, item), s) { CountedRestored(l, head, item, s); }
    MakeRestores(Counted(l, head, item));
  }

  // -- the laws a codec keeps that loses what it reads ------------------------------------------------------------

  ghost predicate Readable<T(!new)>(c: Codec<T>, n: nat)
  {
    Lawful(c) && AtLeast(c, n)
  }

  lemma PairReadable<A(!new), B(!new)>(a: Codec<A>, n: nat, b: Codec<B>, m: nat)
    requires Readable(a, n) && Readable(b, m)
    ensures Readable(Pair(a, b), n + m)
  {
    hide Lawful, AtLeast, Pair;
    PairLawful(a, b);
    PairAtLeast(a, b, n, m);
  }

  lemma AsReadable<A(!new), B(!new)>(a: Codec<A>, n: nat, to: A -> Read<B>, from: B -> A, fits: B -> bool, norm: B -> B)
    requires Readable(a, n) && Matches(a, to, from, fits, norm)
    ensures Readable(As(a, to, from, fits, norm), n)
  {
    hide Lawful, AtLeast, As, Matches;
    AsLawful(a, to, from, fits, norm);
    AsAtLeast(a, to, from, fits, norm, n);
  }

  lemma BindReadable<A(!new), B(!new)>(a: Codec<A>, n: nat, f: A -> Codec<B>, m: nat)
    requires Readable(a, n) && (forall x :: Readable(f(x), m)) && Steady(a, f)
    ensures Readable(Bind(a, f), n + m)
  {
    hide Lawful, AtLeast, Bind, Steady;
    BindLawful(a, f);
    BindAtLeast(a, f, n, m);
  }

  // -- all the laws together ------------------------------------------------------------------------------------

  /** Every law holds, and a value takes at least n bytes. */
  ghost predicate Exact<T(!new)>(c: Codec<T>, n: nat)
  {
    Lawful(c) && AtLeast(c, n) && Restores(c)
  }

  lemma PairExact<A(!new), B(!new)>(a: Codec<A>, n: nat, b: Codec<B>, m: nat)
    requires Exact(a, n) && Exact(b, m)
    ensures Exact(Pair(a, b), n + m)
  {
    hide Lawful, AtLeast, Restores, Pair;
    PairLawful(a, b);
    PairAtLeast(a, b, n, m);
    PairRestores(a, b);
  }

  lemma AsExact<A(!new), B(!new)>(a: Codec<A>, n: nat, to: A -> Read<B>, from: B -> A, fits: B -> bool, norm: B -> B)
    requires Exact(a, n) && Matches(a, to, from, fits, norm) && Undone(to, from)
    ensures Exact(As(a, to, from, fits, norm), n)
  {
    hide Lawful, AtLeast, Restores, As, Matches, Undone;
    AsLawful(a, to, from, fits, norm);
    AsAtLeast(a, to, from, fits, norm, n);
    AsRestores(a, to, from, fits, norm);
  }

  lemma CountedExact<H(!new), A(!new)>(l: Limits, head: Codec<H>, n: nat, item: Codec<A>, m: nat)
    requires l.Valid() && Exact(head, n) && Exact(item, m) && l.per <= m
    ensures Exact(Counted(l, head, item), 4)
  {
    hide Lawful, Restores, Counted;
    assert AtLeast(item, l.per);
    CountedLawful(l, head, item);
    CountedRestores(l, head, item);
  }

  lemma BindExact<A(!new), B(!new)>(a: Codec<A>, n: nat, f: A -> Codec<B>, m: nat)
    requires Exact(a, n) && (forall x :: Exact(f(x), m)) && Steady(a, f)
    ensures Exact(Bind(a, f), n + m)
  {
    hide Lawful, AtLeast, Restores, Bind, Steady;
    BindLawful(a, f);
    BindAtLeast(a, f, n, m);
    BindRestores(a, f);
  }
}
