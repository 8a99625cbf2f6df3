/** Fixed-stride record lists: a descriptor payload made of equally sized
    entries written one after the other in list order, as used by the
    HD simulcast logical channel (4 bytes per entry), parental rating
    (4 bytes) and target IP source/slash (10 bytes) descriptors. */
module Records {
  import opened Bytes

  /** Every encoding produced by `enc` is exactly `n` bytes long. */
  ghost predicate Uniform<T(!new)>(enc: T -> seq<uint8>, n: nat) {
    forall x :: |enc(x)| == n
  }

  /** The `i`-th `n`-byte chunk of `p`. */
  function Chunk(p: seq<uint8>, n: nat, i: nat): seq<uint8>
    requires n * i + n <= |p|
  {
    p[n * i..n * i + n]
  }

  /** The encodings of `es`, concatenated in list order. */
  function Concat<T(!new)>(es: seq<T>, enc: T -> seq<uint8>, n: nat): (p: seq<uint8>)
    requires Uniform(enc, n)
    ensures |p| == n * |es|
  {
    if es == [] then [] else enc(es[0]) + Concat(es[1..], enc, n)
  }

  /** The `n`-byte chunks of `p` decoded in wire order; a trailing chunk
      shorter than `n` bytes is ignored, like TSDuck's `while (size >= n)`. */
  function Split<T>(p: seq<uint8>, n: nat, dec: seq<uint8> -> T): (es: seq<T>)
    requires n > 0
    ensures n * |es| <= |p| < n * |es| + n
    decreases |p|
  {
    if |p| < n then [] else [dec(p[..n])] + Split(p[n..], n, dec)
  }

  /** Entry `i` of the concatenation occupies chunk `i`. */
  lemma {:induction false} ConcatChunk<T(!new)>(es: seq<T>, enc: T -> seq<uint8>, n: nat, i: nat)
    requires Uniform(enc, n)
    requires i < |es|
    ensures n * i + n <= n * |es|
    ensures Chunk(Concat(es, enc, n), n, i) == enc(es[i])
  {
    var p := Concat(es, enc, n);
    assert p == enc(es[0]) + Concat(es[1..], enc, n);
    if i > 0 {
      ConcatChunk(es[1..], enc, n, i - 1);
      assert n * i == n * (i - 1) + n;
      assert Chunk(p, n, i) == Chunk(Concat(es[1..], enc, n), n, i - 1);
    }
  }

  /** Decoded entry `i` comes from chunk `i` of the payload. */
  lemma {:induction false} SplitChunk<T>(p: seq<uint8>, n: nat, dec: seq<uint8> -> T, i: nat)
    requires n > 0
    requires n * i + n <= |p|
    ensures i < |Split(p, n, dec)|
    ensures Split(p, n, dec)[i] == dec(Chunk(p, n, i))
    decreases |p|
  {
    if i > 0 {
      assert n * (i - 1) + n <= |p[n..]| by {
        assert n * i == n * (i - 1) + n;
      }
      SplitChunk(p[n..], n, dec, i - 1);
      assert n * i == n * (i - 1) + n;
      assert Chunk(p, n, i) == Chunk(p[n..], n, i - 1);
    }
  }

  /** Decoding a concatenation recovers each entry through `dec(enc(_))`,
      in list order. */
  lemma {:induction false} SplitConcat<T(!new), U>(es: seq<T>, enc: T -> seq<uint8>, n: nat, dec: seq<uint8> -> U)
    requires n > 0 && Uniform(enc, n)
    ensures |Split(Concat(es, enc, n), n, dec)| == |es|
    ensures forall i :: 0 <= i < |es| ==> Split(Concat(es, enc, n), n, dec)[i] == dec(enc(es[i]))
  {
    if es != [] {
      var p := Concat(es, enc, n);
      assert p == enc(es[0]) + Concat(es[1..], enc, n);
      assert p[..n] == enc(es[0]);
      assert p[n..] == Concat(es[1..], enc, n);
      SplitConcat(es[1..], enc, n, dec);
    }
  }

  /** Every complete `n`-byte chunk of `p` is a fixed point of `enc(dec(_))`. */
  ghost predicate ChunksFixed<T>(p: seq<uint8>, n: nat, dec: seq<uint8> -> T, enc: T -> seq<uint8>)
    requires n > 0
    decreases |p|
  {
    |p| < n || (enc(dec(p[..n])) == p[..n] && ChunksFixed(p[n..], n, dec, enc))
  }

  /** Re-encoding the decoded chunks of a payload made of whole chunks
      reproduces it exactly when every chunk is a fixed point of `enc(dec(_))`. */
  lemma ConcatSplit<T(!new)>(p: seq<uint8>, n: nat, k: nat, dec: seq<uint8> -> T, enc: T -> seq<uint8>)
    requires n > 0 && Uniform(enc, n) && |p| == n * k
    ensures Concat(Split(p, n, dec), enc, n) == p <==> ChunksFixed(p, n, dec, enc)
  {
    if ChunksFixed(p, n, dec, enc) {
      FixedChunksReencode(p, n, k, dec, enc);
    }
    if Concat(Split(p, n, dec), enc, n) == p {
      ReencodedChunksFixed(p, n, k, dec, enc);
    }
  }

  /** When every chunk is a fixed point, re-encoding reproduces the payload. */
  lemma {:induction false} FixedChunksReencode<T(!new)>(p: seq<uint8>, n: nat, k: nat, dec: seq<uint8> -> T, enc: T -> seq<uint8>)
    requires n > 0 && Uniform(enc, n) && |p| == n * k
    requires ChunksFixed(p, n, dec, enc)
    ensures Concat(Split(p, n, dec), enc, n) == p
    decreases k
  {
    if k > 0 {
      var tail := p[n..];
      assert |tail| == n * (k - 1);
      FixedChunksReencode(tail, n, k - 1, dec, enc);
      assert p == p[..n] + tail;
    }
  }

  /** When re-encoding reproduces the payload, every chunk is a fixed point. */
  lemma {:induction false} ReencodedChunksFixed<T(!new)>(p: seq<uint8>, n: nat, k: nat, dec: seq<uint8> -> T, enc: T -> seq<uint8>)
    requires n > 0 && Uniform(enc, n) && |p| == n * k
    requires Concat(Split(p, n, dec), enc, n) == p
    ensures ChunksFixed(p, n, dec, enc)
    decreases k
  {
    if k > 0 {
      var tail := p[n..];
      assert |tail| == n * (k - 1);
      var r := Concat(Split(p, n, dec), enc, n);
      assert r == enc(dec(p[..n])) + Concat(Split(tail, n, dec), enc, n);
      assert enc(dec(p[..n])) == r[..n];
      assert Concat(Split(tail, n, dec), enc, n) == r[n..];
      ReencodedChunksFixed(tail, n, k - 1, dec, enc);
    }
  }

  /** With a codec whose every `n`-byte input is a fixed point of
      `enc(dec(_))`, every chunk of any payload is one. */
  lemma {:induction false} AllChunksFixed<T>(p: seq<uint8>, n: nat, dec: seq<uint8> -> T, enc: T -> seq<uint8>)
    requires n > 0
    requires forall c: seq<uint8> :: |c| == n ==> enc(dec(c)) == c
    ensures ChunksFixed(p, n, dec, enc)
    decreases |p|
  {
    if |p| >= n {
      assert |p[..n]| == n;
      AllChunksFixed(p[n..], n, dec, enc);
    }
  }
}
