/**
Cipher block chaining (section 6.2 of NIST SP 800-38A) over any block type, and its
independence of how a message is divided into Update calls.

The block type, its exclusive-or and the cipher are parameters, so that the chaining
argument is made once for the three modes of soft/rsaref/src/source/desc.c.
*/
module CbcChaining {

  /** A block cipher with its inverse and the operation that mixes in the previous block. */
  datatype Chain<!B> = Chain(forward: B -> B, backward: B -> B, xor: (B, B) -> B)

  ghost predicate Invertible<B(!new)>(c: Chain<B>) {
    && (forall x :: c.backward(c.forward(x)) == x)
    && (forall x :: c.forward(c.backward(x)) == x)
    && (forall x, y :: c.xor(c.xor(x, y), y) == x)
  }

  /** One block in either direction: the block produced, and the next initializing vector. */
  function Step<B>(c: Chain<B>, encrypt: bool, iv: B, x: B): (B, B) {
    if encrypt then
      var y := c.forward(c.xor(x, iv));
      (y, y)
    else
      (c.xor(c.backward(x), iv), x)
  }

  /** The blocks produced from `msg`, and the initializing vector left behind. */
  function Stream<B>(c: Chain<B>, encrypt: bool, iv: B, msg: seq<B>): (r: (seq<B>, B))
    ensures |r.0| == |msg|
    decreases |msg|
  {
    if msg == [] then ([], iv)
    else
      var n := |msg| - 1;
      var (out, mid) := Stream(c, encrypt, iv, msg[..n]);
      var (y, next) := Step(c, encrypt, mid, msg[n]);
      (out + [y], next)
  }

  // ---------------------------------------------------------------------------
  // The equations of section 6.2 of NIST SP 800-38A
  // ---------------------------------------------------------------------------

  /**
   Block `i` of a chained message: encrypting, the cipher of the plaintext xored with the ciphertext
   before it; decrypting, the inverse cipher of the ciphertext xored with the ciphertext before it.
   */
  predicate ChainedAt<B(==)>(c: Chain<B>, encrypt: bool, iv: B, msg: seq<B>, out: seq<B>, i: nat)
    requires |out| == |msg| && i < |msg|
  {
    if encrypt then out[i] == c.forward(c.xor(msg[i], if i == 0 then iv else out[i - 1]))
    else out[i] == c.xor(c.backward(msg[i]), if i == 0 then iv else msg[i - 1])
  }

  /** Every block satisfies its equation, and the vector left is the last ciphertext block. */
  ghost predicate Chained<B>(c: Chain<B>, encrypt: bool, iv: B, msg: seq<B>, out: seq<B>, last: B) {
    && |out| == |msg|
    && (forall i :: 0 <= i < |msg| ==> ChainedAt(c, encrypt, iv, msg, out, i))
    && last == if msg == [] then iv else if encrypt then out[|out| - 1] else msg[|msg| - 1]
  }

  lemma {:induction false} StreamIsChained<B>(c: Chain<B>, encrypt: bool, iv: B, msg: seq<B>)
    ensures Chained(c, encrypt, iv, msg, Stream(c, encrypt, iv, msg).0, Stream(c, encrypt, iv, msg).1)
    decreases |msg|
  {
    if msg != [] {
      var n := |msg| - 1;
      StreamIsChained(c, encrypt, iv, msg[..n]);
      var (before, mid) := Stream(c, encrypt, iv, msg[..n]);
      var out := Stream(c, encrypt, iv, msg).0;
      forall i | 0 <= i < |msg|
        ensures ChainedAt(c, encrypt, iv, msg, out, i)
      {
        if i < n {
          assert ChainedAt(c, encrypt, iv, msg[..n], before, i);
        }
      }
    }
  }

  /** The equations leave no choice. */
  lemma {:induction false} ChainedIsStream<B>(
      c: Chain<B>, encrypt: bool, iv: B, msg: seq<B>, out: seq<B>, last: B)
    requires Chained(c, encrypt, iv, msg, out, last)
    ensures (out, last) == Stream(c, encrypt, iv, msg)
    decreases |msg|
  {
    if msg != [] {
      var n := |msg| - 1;
      var mid := if n == 0 then iv else if encrypt then out[n - 1] else msg[n - 1];
      forall i | 0 <= i < n
        ensures ChainedAt(c, encrypt, iv, msg[..n], out[..n], i)
      {
        assert ChainedAt(c, encrypt, iv, msg, out, i);
      }
      ChainedIsStream(c, encrypt, iv, msg[..n], out[..n], mid);
      assert ChainedAt(c, encrypt, iv, msg, out, n);
      assert out == out[..n] + [out[n]];
    }
  }

  /** Encrypting and then decrypting a stream, or the other way round, restores it. */
  lemma {:induction false} StreamInverse<B(!new)>(c: Chain<B>, encrypt: bool, iv: B, msg: seq<B>)
    requires Invertible(c)
    ensures Stream(c, !encrypt, iv, Stream(c, encrypt, iv, msg).0) == (msg, Stream(c, encrypt, iv, msg).1)
    decreases |msg|
  {
    if msg == [] {
    } else {
      var n := |msg| - 1;
      StreamInverse(c, encrypt, iv, msg[..n]);
      var (out, mid) := Stream(c, encrypt, iv, msg[..n]);
      var (y, next) := Step(c, encrypt, mid, msg[n]);
      assert (out + [y])[..n] == out;
      assert Step(c, !encrypt, mid, y) == (msg[n], next);
      assert msg == msg[..n] + [msg[n]];
    }
  }

  /** Processing two messages one after the other is processing their concatenation. */
  lemma {:induction false} StreamConcat<B>(c: Chain<B>, encrypt: bool, iv: B, a: seq<B>, b: seq<B>)
    ensures var (outA, mid) := Stream(c, encrypt, iv, a);
            var (outB, last) := Stream(c, encrypt, mid, b);
            Stream(c, encrypt, iv, a + b) == (outA + outB, last)
    decreases |b|
  {
    if b == [] {
      assert a + b == a;
      assert Stream(c, encrypt, iv, a).0 + [] == Stream(c, encrypt, iv, a).0;
    } else {
      var n := |b| - 1;
      assert (a + b)[..|a + b| - 1] == a + b[..n];
      StreamConcat(c, encrypt, iv, a, b[..n]);
      var (outA, mid) := Stream(c, encrypt, iv, a);
      var (outB, last) := Stream(c, encrypt, mid, b[..n]);
      var (y, next) := Step(c, encrypt, last, b[n]);
      assert (outA + outB) + [y] == outA + (outB + [y]);
    }
  }

  // ---------------------------------------------------------------------------
  // Bytes
  // ---------------------------------------------------------------------------

  /** The reading and writing of a block as eight bytes. */
  datatype Codec<!Y, !B> = Codec(pack: seq<Y> -> B, unpack: B -> seq<Y>)

  ghost predicate Faithful<Y(!new), B(!new)>(k: Codec<Y, B>) {
    && (forall b :: |k.unpack(b)| == 8 && k.pack(k.unpack(b)) == b)
    && (forall s :: |s| == 8 ==> k.unpack(k.pack(s)) == s)
  }

  /** The whole blocks of a byte string; a remainder of fewer than eight bytes is dropped. */
  function Blocks<Y, B>(k: Codec<Y, B>, bytes: seq<Y>): (blocks: seq<B>)
    ensures |blocks| == |bytes| / 8
    decreases |bytes|
  {
    if |bytes| < 8 then []
    else [k.pack(bytes[..8])] + Blocks(k, bytes[8..])
  }

  function Bytes<Y, B>(k: Codec<Y, B>, blocks: seq<B>): seq<Y>
    decreases |blocks|
  {
    if blocks == [] then [] else k.unpack(blocks[0]) + Bytes(k, blocks[1..])
  }

  lemma {:induction false} BlocksOfBytes<Y(!new), B(!new)>(k: Codec<Y, B>, blocks: seq<B>)
    requires Faithful(k)
    ensures Blocks(k, Bytes(k, blocks)) == blocks
    decreases |blocks|
  {
    if blocks == [] {
    } else {
      BlocksOfBytes(k, blocks[1..]);
      var bytes := Bytes(k, blocks);
      assert bytes[..8] == k.unpack(blocks[0]);
      assert bytes[8..] == Bytes(k, blocks[1..]);
    }
  }

  lemma {:induction false} BytesOfBlocks<Y(!new), B(!new)>(k: Codec<Y, B>, bytes: seq<Y>)
    requires Faithful(k) && |bytes| % 8 == 0
    ensures Bytes(k, Blocks(k, bytes)) == bytes
    decreases |bytes|
  {
    if |bytes| < 8 {
    } else {
      BytesOfBlocks(k, bytes[8..]);
      assert bytes == bytes[..8] + bytes[8..];
      var blocks := Blocks(k, bytes);
      assert blocks[1..] == Blocks(k, bytes[8..]);
    }
  }

  lemma {:induction false} BlocksConcat<Y, B>(k: Codec<Y, B>, a: seq<Y>, b: seq<Y>)
    requires |a| % 8 == 0
    ensures Blocks(k, a + b) == Blocks(k, a) + Blocks(k, b)
    decreases |a|
  {
    if a == [] {
      assert a + b == b;
    } else {
      BlocksConcat(k, a[8..], b);
      assert (a + b)[..8] == a[..8];
      assert (a + b)[8..] == a[8..] + b;
    }
  }

  lemma {:induction false} BytesConcat<Y, B>(k: Codec<Y, B>, a: seq<B>, b: seq<B>)
    ensures Bytes(k, a + b) == Bytes(k, a) + Bytes(k, b)
    decreases |a|
  {
    if a == [] {
      assert a + b == b;
    } else {
      BytesConcat(k, a[1..], b);
      assert (a + b)[1..] == a[1..] + b;
    }
  }

  /** The effect of one Update call on a byte string whose length is a multiple of eight. */
  function StreamBytes<Y, B>(c: Chain<B>, k: Codec<Y, B>, encrypt: bool, iv: B, bytes: seq<Y>): (seq<Y>, B) {
    var (out, last) := Stream(c, encrypt, iv, Blocks(k, bytes));
    (Bytes(k, out), last)
  }

  lemma StreamNothing<Y, B>(c: Chain<B>, k: Codec<Y, B>, encrypt: bool, iv: B)
    ensures StreamBytes(c, k, encrypt, iv, []) == ([], iv)
  {
  }

  lemma SliceLater<Y>(bytes: seq<Y>, skipped: nat, from: nat)
    requires skipped + from + 8 <= |bytes|
    ensures bytes[skipped..][from..from + 8] == bytes[skipped + from..skipped + from + 8]
  {
  }

  lemma {:induction false} BlockAt<Y, B>(k: Codec<Y, B>, bytes: seq<Y>, i: nat)
    requires 8 * i + 8 <= |bytes|
    ensures i < |Blocks(k, bytes)| && Blocks(k, bytes)[i] == k.pack(bytes[8 * i..8 * i + 8])
    decreases |bytes|
  {
    if i > 0 {
      BlockAt(k, bytes[8..], i - 1);
      SliceLater(bytes, 8, 8 * (i - 1));
    }
  }

  lemma {:induction false} BytesAt<Y(!new), B(!new)>(k: Codec<Y, B>, blocks: seq<B>, i: nat)
    requires Faithful(k) && i < |blocks|
    ensures 8 * i + 8 <= |Bytes(k, blocks)| && Bytes(k, blocks)[8 * i..8 * i + 8] == k.unpack(blocks[i])
    decreases |blocks|
  {
    var first, rest := k.unpack(blocks[0]), Bytes(k, blocks[1..]);
    assert |first| == 8;
    if i > 0 {
      BytesAt(k, blocks[1..], i - 1);
      assert (first + rest)[8 * i..8 * i + 8] == rest[8 * (i - 1)..8 * (i - 1) + 8];
    }
  }

  /** One more block: the loop of an Update call advances by eight bytes. */
  lemma StreamNext<Y, B>(c: Chain<B>, k: Codec<Y, B>, encrypt: bool, iv: B, bytes: seq<Y>, n: nat)
    requires 8 * n + 8 <= |bytes|
    ensures var (out, mid) := StreamBytes(c, k, encrypt, iv, bytes[..8 * n]);
            var (y, next) := Step(c, encrypt, mid, k.pack(bytes[8 * n..8 * n + 8]));
            StreamBytes(c, k, encrypt, iv, bytes[..8 * n + 8]) == (out + k.unpack(y), next)
  {
    var a, b := bytes[..8 * n], bytes[8 * n..8 * n + 8];
    assert bytes[..8 * n + 8] == a + b;
    BlocksConcat(k, a, b);
    assert b[..8] == b && Blocks(k, b[8..]) == [];
    assert Blocks(k, b) == [k.pack(b)];
    var blocks := Blocks(k, a) + [k.pack(b)];
    assert blocks[..|blocks| - 1] == Blocks(k, a);
    var (out, mid) := Stream(c, encrypt, iv, Blocks(k, a));
    var (y, next) := Step(c, encrypt, mid, k.pack(b));
    assert Stream(c, encrypt, iv, blocks) == (out + [y], next);
    BytesConcat(k, out, [y]);
    assert [y][1..] == [];
    assert Bytes(k, [y]) == k.unpack(y) + [] == k.unpack(y);
  }

  // ---------------------------------------------------------------------------
  // Any sequence of Update calls
  // ---------------------------------------------------------------------------

  /** A call whose length is not a multiple of eight is refused and changes nothing. */
  function Updates<Y, B>(c: Chain<B>, k: Codec<Y, B>, encrypt: bool, iv: B, calls: seq<seq<Y>>): (seq<Y>, B)
    decreases |calls|
  {
    if calls == [] then ([], iv)
    else if |calls[0]| % 8 != 0 then Updates(c, k, encrypt, iv, calls[1..])
    else
      var (out, mid) := StreamBytes(c, k, encrypt, iv, calls[0]);
      var (rest, last) := Updates(c, k, encrypt, mid, calls[1..]);
      (out + rest, last)
  }

  /** The bytes of the calls that are not refused. */
  function Accepted<Y>(calls: seq<seq<Y>>): (bytes: seq<Y>)
    ensures |bytes| % 8 == 0
    decreases |calls|
  {
    if calls == [] then []
    else if |calls[0]| % 8 != 0 then Accepted(calls[1..])
    else calls[0] + Accepted(calls[1..])
  }

  /** The output depends only on the accepted bytes, not on their division into calls. */
  lemma {:induction false} UpdatesAsOne<Y, B>(
      c: Chain<B>, k: Codec<Y, B>, encrypt: bool, iv: B, calls: seq<seq<Y>>)
    ensures Updates(c, k, encrypt, iv, calls) == StreamBytes(c, k, encrypt, iv, Accepted(calls))
    decreases |calls|
  {
    if calls == [] {
    } else if |calls[0]| % 8 != 0 {
      UpdatesAsOne(c, k, encrypt, iv, calls[1..]);
    } else {
      var rest := Accepted(calls[1..]);
      var (out, mid) := Stream(c, encrypt, iv, Blocks(k, calls[0]));
      UpdatesAsOne(c, k, encrypt, mid, calls[1..]);
      BlocksConcat(k, calls[0], rest);
      StreamConcat(c, encrypt, iv, Blocks(k, calls[0]), Blocks(k, rest));
      BytesConcat(k, out, Stream(c, encrypt, mid, Blocks(k, rest)).0);
    }
  }

  /** Whatever one side accepted and produced in any division, the other side turns back. */
  lemma UpdatesRoundTrip<Y(!new), B(!new)>(
      c: Chain<B>, k: Codec<Y, B>, encrypt: bool, iv: B, calls: seq<seq<Y>>, calls': seq<seq<Y>>)
    requires Invertible(c) && Faithful(k)
    requires Accepted(calls') == Updates(c, k, encrypt, iv, calls).0
    ensures Updates(c, k, !encrypt, iv, calls').0 == Accepted(calls)
  {
    UpdatesAsOne(c, k, encrypt, iv, calls);
    UpdatesAsOne(c, k, !encrypt, iv, calls');
    var blocks := Blocks(k, Accepted(calls));
    BlocksOfBytes(k, Stream(c, encrypt, iv, blocks).0);
    StreamInverse(c, encrypt, iv, blocks);
    BytesOfBlocks(k, Accepted(calls));
  }
}
