/** What the specification decoder does with the pieces an encoder writes. */
module InflateLemmas {
  import opened Bits
  import opened PrefixCodes
  import opened Inflate

  lemma TakeDrop<T>(a: seq<T>, b: seq<T>)
    ensures (a + b)[..|a|] == a && (a + b)[|a|..] == b
  {
  }

  /** A number written in n bits reads back. */
  lemma ReadLsb(v: nat, n: nat, rest: bits)
    requires v < Pow2(n)
    ensures ReadBits(Lsb(v, n) + rest, n) == Ok(v, rest)
  {
    LsbRoundTrip(v, n);
    TakeDrop(Lsb(v, n), rest);
  }

  lemma FitsDecodable(lens: seq<nat>)
    ensures Fits(lens) <==> Decodable(lens)
  {
  }

  /** Two code words that both start the same bits are one. */
  lemma SameStart(lens: seq<nat>, n: nat, m: nat, rest: bits)
    requires Decodable(lens) && n < |lens| && m < |lens| && lens[n] > 0 && lens[m] > 0
    requires CodeWord(lens, m) <= CodeWord(lens, n) + rest
    ensures m == n
  {
    var u, w := CodeWord(lens, m), CodeWord(lens, n);
    hide *;
    PrefixOfSum(u, w, rest);
    if |u| <= |w| { PrefixFree(lens, m, n); } else { PrefixFree(lens, n, m); }
  }

  lemma PrefixOfSum<T>(u: seq<T>, w: seq<T>, rest: seq<T>)
    requires u <= w + rest
    ensures if |u| <= |w| then u <= w else w <= u
  {
    if |u| <= |w| {
      assert u == (w + rest)[..|u|] == w[..|u|];
    } else {
      assert u[..|w|] == (w + rest)[..|w|] == w;
    }
  }

  lemma {:induction false} FindWord(lens: seq<nat>, n: nat, rest: bits, from: nat)
    requires Decodable(lens) && from <= n < |lens| && lens[n] > 0
    ensures FindSymbol(lens, CodeWord(lens, n) + rest, from) == Ok(n, rest)
    decreases n - from
  {
    hide Decodable, CodeWord;
    var s := CodeWord(lens, n) + rest;
    TakeDrop(CodeWord(lens, n), rest);
    if from < n {
      if lens[from] > 0 && CodeWord(lens, from) <= s { SameStart(lens, n, from, rest); }
      FindWord(lens, n, rest, from + 1);
    }
  }

  /** A code word decodes to its symbol, whatever follows. */
  lemma ReadWord(lens: seq<nat>, n: nat, rest: bits)
    requires Decodable(lens) && n < |lens| && lens[n] > 0
    ensures ReadSymbol(lens, CodeWord(lens, n) + rest) == Ok(n, rest)
  {
    FindWord(lens, n, rest, 0);
  }

  // -- stored bytes ----------------------------------------------------------------------

  lemma {:induction false} BytesFront(b: byte, data: seq<byte>)
    ensures BytesBits([b] + data) == Lsb(b, 8) + BytesBits(data)
  {
    BytesBitsConcat([b], data);
    BytesBitsAppend([], b);
    assert [] + [b] == [b];
  }

  lemma {:induction false} ReadBytesBack(data: seq<byte>, rest: bits, out: seq<byte>)
    ensures ReadBytes(BytesBits(data) + rest, |data|, out) == Ok(out + data, rest)
  {
    if data == [] {
      assert BytesBits(data) + rest == rest;
      assert out + data == out;
    } else {
      var b, tail := data[0], data[1..];
      assert data == [b] + tail;
      BytesFront(b, tail);
      ConcatAssoc(Lsb(b, 8), BytesBits(tail), rest);
      Pow2Values();
      ReadLsb(b, 8, BytesBits(tail) + rest);
      ReadBytesBack(tail, rest, out + [b]);
      ConcatAssoc(out, [b], tail);
    }
  }

  lemma ReadRawBack(data: seq<byte>, rest: bits, out: seq<byte>)
    requires |data| < 65536
    ensures ReadRaw(Lsb(|data|, 16) + (Lsb(65535 - |data|, 16) + (BytesBits(data) + rest)), out) == Ok(out + data, rest)
  {
    hide ReadBits, ReadBytes, BytesBits, Lsb, Pow2;
    Pow2Values();
    ReadLsb(|data|, 16, Lsb(65535 - |data|, 16) + (BytesBits(data) + rest));
    ReadLsb(65535 - |data|, 16, BytesBits(data) + rest);
    ReadBytesBack(data, rest, out);
  }

  /** A stored block reads back from any position, given that the stream is whole bytes. */
  lemma ReadStoredBack(pad: nat, data: seq<byte>, rest: bits, out: seq<byte>)
    requires pad < 8 && |data| < 65536 && |rest| % 8 == 0
    ensures ReadStored(Zeros(pad) + (Lsb(|data|, 16) + (Lsb(65535 - |data|, 16) + (BytesBits(data) + rest))), out)
         == Ok(out + data, rest)
  {
    hide ReadRaw, BytesBits, Lsb, Zeros;
    var s := Lsb(|data|, 16) + (Lsb(65535 - |data|, 16) + (BytesBits(data) + rest));
    assert |Zeros(pad) + s| % 8 == pad;
    TakeDrop(Zeros(pad), s);
    ReadRawBack(data, rest, out);
  }
}
