/**
The three chained modes of soft/rsaref/src/source/desc.c: DES-CBC, DESX-CBC and
DES-EDE3-CBC, with contexts that carry the initializing vector from call to call.
*/
module DesCbc {
  import opened CbcChaining
  import opened DesCipher
  import opened DesKeySchedule

  const RE_LEN := 0x0406

  datatype Mode = Des | Desx | Des3

  function KeyLength(mode: Mode): nat {
    if mode == Des then 8 else 24
  }

  // ---------------------------------------------------------------------------
  // Blocks and bytes
  // ---------------------------------------------------------------------------

  function PackWord(a: bv8, b: bv8, c: bv8, d: bv8): bv32 {
    ((a as bv32) << 24) | ((b as bv32) << 16) | ((c as bv32) << 8) | (d as bv32)
  }

  function ByteAt(w: bv32, shift: bv6): bv8
    requires shift <= 24
  {
    ((w >> shift) & 0xff) as bv8
  }

  function Pack(s: seq<bv8>): Block {
    if |s| != 8 then Block(0, 0)
    else Block(PackWord(s[0], s[1], s[2], s[3]), PackWord(s[4], s[5], s[6], s[7]))
  }

  function Unpack(b: Block): (s: seq<bv8>)
    ensures |s| == 8
  {
    [ByteAt(b.left, 24), ByteAt(b.left, 16), ByteAt(b.left, 8), ByteAt(b.left, 0),
     ByteAt(b.right, 24), ByteAt(b.right, 16), ByteAt(b.right, 8), ByteAt(b.right, 0)]
  }

  lemma BytesOfWord(a: bv8, b: bv8, c: bv8, d: bv8)
    ensures var w := PackWord(a, b, c, d);
            ByteAt(w, 24) == a && ByteAt(w, 16) == b && ByteAt(w, 8) == c && ByteAt(w, 0) == d
  {
  }

  lemma WordOfBytes(w: bv32)
    ensures PackWord(ByteAt(w, 24), ByteAt(w, 16), ByteAt(w, 8), ByteAt(w, 0)) == w
  {
  }

  lemma ByteValues(a: bv8, b: bv8, c: bv8, d: bv8)
    ensures (((a as bv32) << 24) | ((b as bv32) << 16) | ((c as bv32) << 8) | (d as bv32)) as int ==
            a as int * 0x100_0000 + b as int * 0x1_0000 + c as int * 0x100 + d as int
  {
  }

  /** Pack reads two words of four bytes each, the most significant byte first. */
  lemma PackIsBigEndian(s: seq<bv8>)
    requires |s| == 8
    ensures Pack(s).left as int ==
            s[0] as int * 0x100_0000 + s[1] as int * 0x1_0000 + s[2] as int * 0x100 + s[3] as int
    ensures Pack(s).right as int ==
            s[4] as int * 0x100_0000 + s[5] as int * 0x1_0000 + s[6] as int * 0x100 + s[7] as int
  {
    ByteValues(s[0], s[1], s[2], s[3]);
    ByteValues(s[4], s[5], s[6], s[7]);
  }

  const CODEC := Codec(Pack, Unpack)

  lemma CodecFaithful()
    ensures Faithful(CODEC)
  {
    forall b: Block
      ensures Pack(Unpack(b)) == b
    {
      WordOfBytes(b.left);
      WordOfBytes(b.right);
    }
    forall s: seq<bv8> | |s| == 8
      ensures Unpack(Pack(s)) == s
    {
      BytesOfWord(s[0], s[1], s[2], s[3]);
      BytesOfWord(s[4], s[5], s[6], s[7]);
    }
  }

  // ---------------------------------------------------------------------------
  // The block cipher of each mode
  // ---------------------------------------------------------------------------

  type ModeKey = k: (Mode, seq<bv8>) | |k.1| == KeyLength(k.0) witness (Des, [0, 0, 0, 0, 0, 0, 0, 0])

  /** The cipher under one 8-byte key, forwards or backwards. */
  function Under(sp: SPBoxes, key: Key, encrypt: bool, x: Block): Block {
    Cipher(sp, x, if encrypt then KeySchedule(key) else Reversed(KeySchedule(key)))
  }

  /** Three passes, the middle one in the opposite direction. */
  function Ede(sp: SPBoxes, k1: Key, k2: Key, k3: Key, encrypt: bool, x: Block): Block {
    Under(sp, k3, encrypt, Under(sp, k2, !encrypt, Under(sp, k1, encrypt, x)))
  }

  function Part(k: ModeKey, n: nat): Key
    requires n == 0 || (n < 3 && k.0 != Des)
  {
    k.1[8 * n..8 * n + 8]
  }

  /** The key of the n-th pass: DES-EDE3 decrypts with its three keys in the opposite order. */
  function PassKey(k: ModeKey, encrypt: bool, n: nat): Key
    requires n == 0 || (n < 3 && k.0 == Des3)
  {
    if k.0 == Des3 && !encrypt then Part(k, 2 - n) else Part(k, n)
  }

  /** What the calls of DESFunction do to one block. */
  function Passes(sp: SPBoxes, k: ModeKey, encrypt: bool, x: Block): Block {
    if k.0 != Des3 then Under(sp, PassKey(k, encrypt, 0), encrypt, x)
    else Ede(sp, PassKey(k, encrypt, 0), PassKey(k, encrypt, 1), PassKey(k, encrypt, 2), encrypt, x)
  }

  /** The blocks xor-ed in before and after encryption; only DESX has them. */
  function InputWhitener(k: ModeKey): Block {
    if k.0 == Desx then Pack(Part(k, 1)) else Block(0, 0)
  }

  function OutputWhitener(k: ModeKey): Block {
    if k.0 == Desx then Pack(Part(k, 2)) else Block(0, 0)
  }

  function Forward(sp: SPBoxes, k: ModeKey, x: Block): Block {
    Passes(sp, k, true, x.Xor(InputWhitener(k))).Xor(OutputWhitener(k))
  }

  function Backward(sp: SPBoxes, k: ModeKey, x: Block): Block {
    Passes(sp, k, false, x.Xor(OutputWhitener(k))).Xor(InputWhitener(k))
  }

  lemma UnderInverse(sp: SPBoxes, key: Key, encrypt: bool, x: Block)
    ensures Under(sp, key, !encrypt, Under(sp, key, encrypt, x)) == x
  {
    var keys := KeySchedule(key);
    assert Reversed(Reversed(keys)) == keys;
    CipherInverse(sp, x, if encrypt then keys else Reversed(keys));
  }

  lemma EdeInverse(sp: SPBoxes, k1: Key, k2: Key, k3: Key, encrypt: bool, x: Block)
    ensures Ede(sp, k3, k2, k1, !encrypt, Ede(sp, k1, k2, k3, encrypt, x)) == x
  {
    var first := Under(sp, k1, encrypt, x);
    var second := Under(sp, k2, !encrypt, first);
    UnderInverse(sp, k3, encrypt, second);
    UnderInverse(sp, k2, !encrypt, first);
    UnderInverse(sp, k1, encrypt, x);
  }

  lemma PassesInverse(sp: SPBoxes, k: ModeKey, encrypt: bool, x: Block)
    ensures Passes(sp, k, !encrypt, Passes(sp, k, encrypt, x)) == x
  {
    if k.0 != Des3 {
      UnderInverse(sp, PassKey(k, encrypt, 0), encrypt, x);
    } else {
      EdeInverse(sp, PassKey(k, encrypt, 0), PassKey(k, encrypt, 1), PassKey(k, encrypt, 2), encrypt, x);
    }
  }

  lemma XorBlockTwice(x: Block, y: Block)
    ensures x.Xor(y).Xor(y) == x
  {
    hide XorWord;
    XorTwice(x.left, y.left);
    XorTwice(x.right, y.right);
  }

  lemma BackwardForward(sp: SPBoxes, k: ModeKey, x: Block)
    ensures Backward(sp, k, Forward(sp, k, x)) == x
  {
    var inner := x.Xor(InputWhitener(k));
    XorBlockTwice(Passes(sp, k, true, inner), OutputWhitener(k));
    PassesInverse(sp, k, true, inner);
    XorBlockTwice(x, InputWhitener(k));
  }

  lemma ForwardBackward(sp: SPBoxes, k: ModeKey, x: Block)
    ensures Forward(sp, k, Backward(sp, k, x)) == x
  {
    var inner := x.Xor(OutputWhitener(k));
    XorBlockTwice(Passes(sp, k, false, inner), InputWhitener(k));
    PassesInverse(sp, k, false, inner);
    XorBlockTwice(x, OutputWhitener(k));
  }

  function ModeChain(sp: SPBoxes, k: ModeKey): Chain<Block> {
    Chain(x => Forward(sp, k, x), x => Backward(sp, k, x), (x: Block, y: Block) => x.Xor(y))
  }

  lemma ModeInvertible(sp: SPBoxes, k: ModeKey)
    ensures Invertible(ModeChain(sp, k))
  {
    forall x
      ensures Backward(sp, k, Forward(sp, k, x)) == x && Forward(sp, k, Backward(sp, k, x)) == x
    {
      BackwardForward(sp, k, x);
      ForwardBackward(sp, k, x);
    }
    forall x: Block, y: Block
      ensures x.Xor(y).Xor(y) == x
    {
      XorBlockTwice(x, y);
    }
  }

  /**
   The main result: for every key, initializing vector and table contents, and however each
   side divides its bytes into Update calls, what one side produces the other side restores.
   */
  lemma CbcRoundTrip(sp: SPBoxes, k: ModeKey, iv: Block, encrypt: bool,
                     calls: seq<seq<bv8>>, calls': seq<seq<bv8>>)
    requires Accepted(calls') == Updates(ModeChain(sp, k), CODEC, encrypt, iv, calls).0
    ensures Updates(ModeChain(sp, k), CODEC, !encrypt, iv, calls').0 == Accepted(calls)
  {
    ModeInvertible(sp, k);
    CodecFaithful();
    UpdatesRoundTrip(ModeChain(sp, k), CODEC, encrypt, iv, calls, calls');
  }

  // ---------------------------------------------------------------------------
  // What the bytes of a call satisfy
  // ---------------------------------------------------------------------------

  /**
   One block encrypted, as the three modes are defined: DES under the only key; DESX with the second
   and third parts of the key xored in before and after; and encryption, decryption and encryption
   under the three parts.
   */
  function EncryptBlock(sp: SPBoxes, k: ModeKey, x: Block): Block {
    match k.0
    case Des => Cipher(sp, x, KeySchedule(k.1))
    case Desx => Cipher(sp, x.Xor(Pack(k.1[8..16])), KeySchedule(k.1[..8])).Xor(Pack(k.1[16..]))
    case Des3 =>
      var once := Cipher(sp, x, KeySchedule(k.1[..8]));
      var twice := Cipher(sp, once, Reversed(KeySchedule(k.1[8..16])));
      Cipher(sp, twice, KeySchedule(k.1[16..]))
  }

  lemma ForwardEncrypts(sp: SPBoxes, k: ModeKey, x: Block)
    ensures Forward(sp, k, x) == EncryptBlock(sp, k, x)
  {
    hide Cipher, KeySchedule, Pack, XorWord, Reversed;
    XorNothing(x);
    XorNothing(Passes(sp, k, true, x));
    assert k.1[0..8] == k.1[..8];
    match k.0
    case Des => assert k.1[..8] == k.1;
    case Desx => assert k.1[16..24] == k.1[16..];
    case Des3 => assert k.1[16..24] == k.1[16..];
  }

  /** Block `i` of a ciphertext is the cipher of that of the plaintext xored with the block before. */
  predicate CipherBlock(sp: SPBoxes, k: ModeKey, iv: Block, plain: seq<bv8>, cipher: seq<bv8>, i: nat)
    requires |plain| == |cipher| && 8 * i + 8 <= |plain|
  {
    Pack(cipher[8 * i..8 * i + 8]) ==
    EncryptBlock(sp, k, Pack(plain[8 * i..8 * i + 8]).Xor(if i == 0 then iv else Pack(cipher[8 * i - 8..8 * i])))
  }

  /** Section 6.2 of NIST SP 800-38A, for whole blocks; the vector left is the last ciphertext block. */
  ghost predicate CipherText(sp: SPBoxes, k: ModeKey, iv: Block, plain: seq<bv8>, cipher: seq<bv8>, last: Block) {
    && |plain| == |cipher| && |plain| % 8 == 0
    && (forall i :: 0 <= i < |plain| / 8 ==> CipherBlock(sp, k, iv, plain, cipher, i))
    && last == if cipher == [] then iv else Pack(cipher[|cipher| - 8..])
  }

  /** What goes in is the plaintext when encrypting and the ciphertext when decrypting. */
  ghost predicate Converted(sp: SPBoxes, k: ModeKey, encrypt: bool, iv: Block, input: seq<bv8>, output: seq<bv8>,
                            last: Block)
  {
    if encrypt then CipherText(sp, k, iv, input, output, last) else CipherText(sp, k, iv, output, input, last)
  }

  lemma PackedOutput(blocks: seq<Block>, i: nat)
    requires i < |blocks|
    ensures 8 * i + 8 <= |Bytes(CODEC, blocks)| && Pack(Bytes(CODEC, blocks)[8 * i..8 * i + 8]) == blocks[i]
  {
    hide Pack, Unpack;
    CodecFaithful();
    BytesAt(CODEC, blocks, i);
  }

  /** A block satisfies its chaining equation in either direction. */
  lemma ChainedEncrypts(sp: SPBoxes, k: ModeKey, encrypt: bool, iv: Block, msg: seq<Block>, out: seq<Block>, i: nat)
    requires |out| == |msg| && i < |msg| && ChainedAt(ModeChain(sp, k), encrypt, iv, msg, out, i)
    ensures var plain, cipher := if encrypt then msg else out, if encrypt then out else msg;
            cipher[i] == EncryptBlock(sp, k, plain[i].Xor(if i == 0 then iv else cipher[i - 1]))
  {
    hide Forward, Backward, EncryptBlock, XorWord;
    var before := if i == 0 then iv else if encrypt then out[i - 1] else msg[i - 1];
    if encrypt {
      ForwardEncrypts(sp, k, msg[i].Xor(before));
    } else {
      XorBlockTwice(Backward(sp, k, msg[i]), before);
      ForwardBackward(sp, k, msg[i]);
      ForwardEncrypts(sp, k, Backward(sp, k, msg[i]));
    }
  }

  /** Bytes that are the blocks of a chained message satisfy the equations. */
  lemma BlocksConvert(sp: SPBoxes, k: ModeKey, iv: Block, plain: seq<bv8>, cipher: seq<bv8>,
                      p: seq<Block>, c: seq<Block>, last: Block)
    requires |plain| == |cipher| == 8 * |p| && |c| == |p|
    requires forall i :: 0 <= i < |p| ==>
               Pack(plain[8 * i..8 * i + 8]) == p[i] && Pack(cipher[8 * i..8 * i + 8]) == c[i]
    requires forall i :: 0 <= i < |p| ==> ChainsTo(sp, k, iv, p, c, i)
    requires last == if c == [] then iv else c[|c| - 1]
    ensures CipherText(sp, k, iv, plain, cipher, last)
  {
    hide Pack, EncryptBlock, XorWord;
    forall i | 0 <= i < |plain| / 8
      ensures CipherBlock(sp, k, iv, plain, cipher, i)
    {
      assert ChainsTo(sp, k, iv, p, c, i);
      if i > 0 {
        assert cipher[8 * (i - 1)..8 * (i - 1) + 8] == cipher[8 * i - 8..8 * i];
      }
    }
    if c != [] {
      var n := |c| - 1;
      assert cipher[8 * n..8 * n + 8] == cipher[|cipher| - 8..];
    }
  }

  predicate ChainsTo(sp: SPBoxes, k: ModeKey, iv: Block, p: seq<Block>, c: seq<Block>, i: nat)
    requires |p| == |c| && i < |p|
  {
    c[i] == EncryptBlock(sp, k, p[i].Xor(if i == 0 then iv else c[i - 1]))
  }

  lemma StreamConverts(sp: SPBoxes, k: ModeKey, encrypt: bool, iv: Block, input: seq<bv8>)
    requires |input| % 8 == 0
    ensures var (output, last) := StreamBytes(ModeChain(sp, k), CODEC, encrypt, iv, input);
            Converted(sp, k, encrypt, iv, input, output, last)
  {
    hide Pack, Unpack, EncryptBlock, XorWord, CipherText, ModeChain, ChainedAt;
    var c, msg := ModeChain(sp, k), Blocks(CODEC, input);
    var (out, last) := Stream(c, encrypt, iv, msg);
    var output := Bytes(CODEC, out);
    StreamIsChained(c, encrypt, iv, msg);
    OutputLength(out);
    var p, q := if encrypt then msg else out, if encrypt then out else msg;
    forall i | 0 <= i < |msg|
      ensures Pack(input[8 * i..8 * i + 8]) == msg[i] && Pack(output[8 * i..8 * i + 8]) == out[i]
      ensures ChainsTo(sp, k, iv, p, q, i)
    {
      BlockAt(CODEC, input, i);
      PackedOutput(out, i);
      ChainedEncrypts(sp, k, encrypt, iv, msg, out, i);
    }
    if encrypt {
      BlocksConvert(sp, k, iv, input, output, msg, out, last);
    } else {
      BlocksConvert(sp, k, iv, output, input, out, msg, last);
    }
  }

  lemma {:induction false} OutputLength(blocks: seq<Block>)
    ensures |Bytes(CODEC, blocks)| == 8 * |blocks|
    decreases |blocks|
  {
    if blocks != [] {
      OutputLength(blocks[1..]);
    }
  }

  /** One step of the chain, as the equations state it. */
  lemma OneStep(sp: SPBoxes, k: ModeKey, encrypt: bool, iv: Block, x: Block)
    ensures var (y, next) := Step(ModeChain(sp, k), encrypt, iv, x);
            if encrypt then y == EncryptBlock(sp, k, x.Xor(iv)) && next == y
            else EncryptBlock(sp, k, y.Xor(iv)) == x && next == x
  {
    hide Forward, Backward, EncryptBlock, XorWord;
    if encrypt {
      ForwardEncrypts(sp, k, x.Xor(iv));
    } else {
      XorBlockTwice(Backward(sp, k, x), iv);
      ForwardBackward(sp, k, x);
      ForwardEncrypts(sp, k, Backward(sp, k, x));
    }
  }

  // ---------------------------------------------------------------------------
  // Contexts
  // ---------------------------------------------------------------------------

  ghost predicate Scheduled(subkeys: seq<bv32>, key: Key, encrypt: bool) {
    |subkeys| == 32 && KeyPairs(subkeys) == if encrypt then KeySchedule(key) else Reversed(KeySchedule(key))
  }

  /** One call of DESFunction on two words held in a block. */
  method Pass(sp: SPBoxes, x: Block, subkeys: seq<bv32>, ghost key: Key, ghost encrypt: bool)
    returns (y: Block)
    requires Scheduled(subkeys, key, encrypt)
    ensures y == Under(sp, key, encrypt, x)
  {
    var work := new bv32[2];
    work[0], work[1] := x.left, x.right;
    DESFunction(sp, work, subkeys);
    y := Block(work[0], work[1]);
  }

  lemma XorNothing(x: Block)
    ensures x.Xor(Block(0, 0)) == x
  {
  }

  lemma XorWordOrder(x: bv32, y: bv32, z: bv32)
    ensures XorWord(x, XorWord(y, z)) == XorWord(XorWord(x, z), y)
  {
  }

  lemma XorOrder(x: Block, y: Block, z: Block)
    ensures x.Xor(y.Xor(z)) == x.Xor(z).Xor(y)
  {
    hide XorWord;
    XorWordOrder(x.left, y.left, z.left);
    XorWordOrder(x.right, y.right, z.right);
  }

  method NewSubkeys(key: Key, encrypt: bool) returns (subkeys: seq<bv32>)
    ensures Scheduled(subkeys, key, encrypt)
  {
    var words := new bv32[32];
    DESKey(words, key, encrypt);
    subkeys := words[..];
  }

  /**
   A context of any of the three modes. DES-CBC and DESX-CBC use the first subkey array only;
   only DESX-CBC uses the whiteners.
   */
  class CbcContext {
    const sp: SPBoxes
    const mode: Mode
    const encrypt: bool
    const subkeys0: seq<bv32>
    const subkeys1: seq<bv32>
    const subkeys2: seq<bv32>
    const inputWhitener: Block
    const outputWhitener: Block
    const originalIV: Block
    var iv: Block
    ghost const key: ModeKey

    ghost predicate Valid()
    {
      && key.0 == mode && inputWhitener == InputWhitener(key) && outputWhitener == OutputWhitener(key)
      && Scheduled(subkeys0, PassKey(key, encrypt, 0), encrypt)
      && (mode == Des3 ==> Scheduled(subkeys1, PassKey(key, encrypt, 1), !encrypt))
      && (mode == Des3 ==> Scheduled(subkeys2, PassKey(key, encrypt, 2), encrypt))
    }

    /** DES_CBCInit, DESX_CBCInit and DES3_CBCInit. */
    constructor (sp: SPBoxes, k: ModeKey, ivBytes: Key, encrypt: bool)
      ensures Valid()
      ensures this.sp == sp && key == k && this.encrypt == encrypt
      ensures iv == originalIV == Pack(ivBytes)
    {
      hide Scheduled, PassKey, Pack, InputWhitener, OutputWhitener;
      this.sp, this.mode, this.encrypt := sp, k.0, encrypt;
      this.key := k;
      inputWhitener, outputWhitener := InputWhitener(k), OutputWhitener(k);
      iv, originalIV := Pack(ivBytes), Pack(ivBytes);
      var s0 := NewSubkeys(PassKey(k, encrypt, 0), encrypt);
      var s1, s2 := s0, s0;
      if k.0 == Des3 {
        s1 := NewSubkeys(PassKey(k, encrypt, 1), !encrypt);
        s2 := NewSubkeys(PassKey(k, encrypt, 2), encrypt);
      }
      subkeys0, subkeys1, subkeys2 := s0, s1, s2;
    }

    /** The call or calls of DESFunction for one block. */
    method RunPasses(x: Block) returns (y: Block)
      requires Valid()
      ensures y == Passes(sp, key, encrypt, x)
    {
      y := Pass(sp, x, subkeys0, PassKey(key, encrypt, 0), encrypt);
      if mode == Des3 {
        y := Pass(sp, y, subkeys1, PassKey(key, encrypt, 1), !encrypt);
        y := Pass(sp, y, subkeys2, PassKey(key, encrypt, 2), encrypt);
      }
    }

    /** The body of the Update loop: whiten, chain, run the cipher, whiten, chain. */
    method ProcessBlock(inputBlock: Block) returns (work: Block)
      requires Valid()
      modifies this`iv
      ensures (work, iv) == Step(ModeChain(sp, key), encrypt, old(iv), inputBlock)
      ensures encrypt ==> work == EncryptBlock(sp, key, inputBlock.Xor(old(iv))) && iv == work
      ensures !encrypt ==> EncryptBlock(sp, key, work.Xor(old(iv))) == inputBlock && iv == inputBlock
    {
      OneStep(sp, key, encrypt, iv, inputBlock);
      hide EncryptBlock;
      XorNothing(inputBlock);
      XorNothing(inputBlock.Xor(iv));
      if encrypt {
        work := inputBlock.Xor(iv);
        if mode == Desx {
          work := work.Xor(inputWhitener);
        }
      } else {
        work := inputBlock;
        if mode == Desx {
          work := work.Xor(outputWhitener);
        }
      }
      work := RunPasses(work);
      XorNothing(work);
      XorOrder(work, iv, inputWhitener);
      if encrypt {
        if mode == Desx {
          work := work.Xor(outputWhitener);
        }
        iv := work;
      } else {
        work := if mode == Desx then work.Xor(iv.Xor(inputWhitener)) else work.Xor(iv);
        iv := inputBlock;
      }
    }

    /** DES_CBCRestart and its two siblings. */
    method Restart()
      modifies this`iv
      ensures iv == originalIV
    {
      iv := originalIV;
    }

    /** The loop of an Update call. */
    method UpdateBlocks(output: array<bv8>, input: array<bv8>, n: nat)
      requires Valid() && 8 * n <= output.Length && 8 * n <= input.Length
      modifies this`iv, output
      ensures (output[..8 * n], iv) ==
              StreamBytes(ModeChain(sp, key), CODEC, encrypt, old(iv), old(input[..8 * n]))
      ensures Converted(sp, key, encrypt, old(iv), old(input[..8 * n]), output[..8 * n], iv)
      ensures forall j :: 8 * n <= j < output.Length ==> output[j] == old(output[j])
    {
      hide ModeChain, Step, Pack, Unpack, StreamBytes, Scheduled, InputWhitener, OutputWhitener, Converted,
           EncryptBlock, PassKey, Part;
      StreamConverts(sp, key, encrypt, iv, input[..8 * n]);
      ghost var c, iv0, bytes := ModeChain(sp, key), iv, input[..8 * n];
      assert ([], iv0) == StreamBytes(c, CODEC, encrypt, iv0, bytes[..0]) by {
        StreamNothing(c, CODEC, encrypt, iv0);
      }
      var i := 0;
      while i < n
        invariant 0 <= i <= n
        invariant forall j :: 8 * i <= j < 8 * n ==> input[j] == bytes[j]
        invariant forall j :: 8 * n <= j < output.Length ==> output[j] == old(output[j])
        invariant (output[..8 * i], iv) == StreamBytes(c, CODEC, encrypt, iv0, bytes[..8 * i])
      {
        StreamNext(c, CODEC, encrypt, iv0, bytes, i);
        assert input[8 * i..8 * i + 8] == bytes[8 * i..8 * i + 8];
        var inputBlock := Pack(input[8 * i..8 * i + 8]);
        var work := ProcessBlock(inputBlock);
        StoreBlock(output, i, work);
        i := i + 1;
      }
      assert bytes[..8 * n] == bytes;
    }

    /** DES_CBCUpdate and its two siblings; `output` may be the same array as `input`. */
    method Update(output: array<bv8>, input: array<bv8>, len: nat) returns (status: int)
      requires Valid() && len <= output.Length && len <= input.Length
      modifies this`iv, output
      ensures status == if len % 8 == 0 then 0 else RE_LEN
      ensures len % 8 != 0 ==> iv == old(iv) && output[..] == old(output[..])
      ensures len % 8 == 0 ==>
        (output[..len], iv) == StreamBytes(ModeChain(sp, key), CODEC, encrypt, old(iv), old(input[..len]))
      ensures len % 8 == 0 ==> Converted(sp, key, encrypt, old(iv), old(input[..len]), output[..len], iv)
      ensures forall j :: len <= j < output.Length ==> output[j] == old(output[j])
    {
      hide ModeChain, StreamBytes, Scheduled, InputWhitener, OutputWhitener, Converted;
      if len % 8 != 0 {
        return RE_LEN;
      }
      UpdateBlocks(output, input, len / 8);
      return 0;
    }
  }

  /** Unpack into the output at block `i`. */
  method StoreBlock(output: array<bv8>, i: nat, work: Block)
    requires 8 * i + 8 <= output.Length
    modifies output
    ensures output[..8 * i + 8] == old(output[..8 * i]) + Unpack(work)
    ensures forall j :: 8 * i + 8 <= j < output.Length ==> output[j] == old(output[j])
  {
    hide Unpack;
    var s := Unpack(work);
    for n := 0 to 8
      invariant forall j :: 0 <= j < 8 * i ==> output[j] == old(output[j])
      invariant forall j :: 8 * i <= j < 8 * i + n ==> output[j] == s[j - 8 * i]
      invariant forall j :: 8 * i + 8 <= j < output.Length ==> output[j] == old(output[j])
    {
      output[8 * i + n] := s[n];
    }
  }

  lemma OneCall(c: Chain<Block>, encrypt: bool, iv: Block, bytes: seq<bv8>)
    requires |bytes| % 8 == 0
    ensures Updates(c, CODEC, encrypt, iv, [bytes]).0 == StreamBytes(c, CODEC, encrypt, iv, bytes).0
    ensures Accepted([bytes]) == bytes
  {
    hide StreamBytes;
    assert [bytes][1..] == [];
  }

  /** Two contexts of opposite direction, one after the other on the same buffer, leave it unchanged. */
  method ThereAndBack(sp: SPBoxes, k: ModeKey, ivBytes: Key, encrypt: bool, buffer: array<bv8>)
    returns (there: int, back: int)
    modifies buffer
    ensures buffer[..] == old(buffer[..])
    ensures there == back == if buffer.Length % 8 == 0 then 0 else RE_LEN
  {
    hide ModeChain, StreamBytes, Updates, Accepted, Scheduled, Pack, InputWhitener, OutputWhitener;
    var a := new CbcContext(sp, k, ivBytes, encrypt);
    var b := new CbcContext(sp, k, ivBytes, !encrypt);
    ghost var c, iv, msg := ModeChain(sp, k), a.iv, buffer[..];
    assert buffer[..buffer.Length] == msg;
    there := a.Update(buffer, buffer, buffer.Length);
    ghost var sent := buffer[..];
    assert buffer[..buffer.Length] == sent;
    back := b.Update(buffer, buffer, buffer.Length);
    assert buffer[..buffer.Length] == buffer[..];
    if buffer.Length % 8 == 0 {
      OneCall(c, encrypt, iv, msg);
      OneCall(c, !encrypt, iv, sent);
      CbcRoundTrip(sp, k, iv, encrypt, [msg], [sent]);
    }
  }
}
