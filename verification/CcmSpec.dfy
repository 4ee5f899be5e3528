/** What CCM with M = 8 and L = 2 computes (RFC 3610 sections 2.2 to 2.5), as
    pure functions of a block function, and why the formatting is sound. The
    block cipher is any total function on 16 byte blocks. */
module CcmSpec {
  import opened Bytes

  type Block = b: seq<byte> | |b| == 16 witness Zeros(16)
  type Nonce = n: seq<byte> | |n| == 13 witness Zeros(13)
  type Mic = m: seq<byte> | |m| == 8 witness Zeros(8)
  type Cipher = Block -> Block

  datatype Sealed = Sealed(text: seq<byte>, mic: Mic)

  // ----- the MAC -----

  function Pad(s: seq<byte>): Block
    requires |s| <= 16
  {
    s + Zeros(16 - |s|)
  }

  function Min(a: nat, b: nat): nat {
    if a <= b then a else b
  }

  /** The 16 byte pieces of `s`, the last one filled up with zeros. */
  function Chunks(s: seq<byte>): (cs: seq<Block>)
    decreases |s|
  {
    if s == [] then []
    else
      var n := Min(16, |s|);
      [Pad(s[..n])] + Chunks(s[n..])
  }

  /** The first block: flags, nonce and message length. */
  function FirstBlock(nonce: Nonce, aadLen: nat, len: nat): Block {
    [if aadLen != 0 then 0x59 else 0x19] + nonce + Be16(len)
  }

  function AadChunks(aad: seq<byte>): seq<Block> {
    if aad == [] then [] else Chunks(Be16(|aad|) + aad)
  }

  /** Everything the CBC-MAC runs over, in order. */
  function MacBlocks(nonce: Nonce, aad: seq<byte>, msg: seq<byte>): (bs: seq<Block>)
    ensures |bs| > 0
  {
    [FirstBlock(nonce, |aad|, |msg|)] + AadChunks(aad) + Chunks(msg)
  }

  function XorBlock(a: Block, b: Block): Block {
    seq(16, i requires 0 <= i < 16 => a[i] ^ b[i])
  }

  /** The CBC chain continued from `x` over `bs`. */
  function Cbc(E: Cipher, x: Block, bs: seq<Block>): Block
    decreases |bs|
  {
    if bs == [] then x else Cbc(E, E(XorBlock(x, bs[0])), bs[1..])
  }

  function CbcMac(E: Cipher, bs: seq<Block>): Block
    requires |bs| > 0
  {
    Cbc(E, Zeros(16), bs)
  }

  lemma {:induction false} CbcAppend(E: Cipher, x: Block, a: seq<Block>, b: seq<Block>)
    ensures Cbc(E, x, a + b) == Cbc(E, Cbc(E, x, a), b)
    decreases |a|
  {
    if a == [] {
      assert a + b == b;
    } else {
      assert (a + b)[1..] == a[1..] + b;
      CbcAppend(E, E(XorBlock(x, a[0])), a[1..], b);
    }
  }

  /** Two blocks the cipher keeps apart stay apart; AES is a permutation, so it is
      such a cipher. Only these lemmas need it. */
  ghost predicate KeepsApart(E: Cipher) {
    forall a: Block, b: Block :: E(a) == E(b) ==> a == b
  }

  lemma XorBlockInjective(x: Block, y: Block, a: Block, b: Block)
    requires XorBlock(x, a) == XorBlock(y, b)
    ensures x == y <==> a == b
  {
    hide XorBlock;
    forall i | 0 <= i < 16
      ensures x[i] == y[i] <==> a[i] == b[i]
    {
      XorBlockInjectiveAt(x, y, a, b, i);
    }
    SameBlock(a, b);
    SameBlock(x, y);
  }

  lemma XorBlockInjectiveAt(x: Block, y: Block, a: Block, b: Block, i: nat)
    requires i < 16 && XorBlock(x, a) == XorBlock(y, b)
    ensures x[i] == y[i] <==> a[i] == b[i]
  {
    XorBlockAt(x, a, i);
    XorBlockAt(y, b, i);
    hide XorBlock;
    XorByte(x[i], a[i], y[i], b[i]);
  }

  lemma XorBlockAt(x: Block, a: Block, i: nat)
    requires i < 16
    ensures XorBlock(x, a)[i] == x[i] ^ a[i]
  {}

  lemma SameBlock(a: Block, b: Block)
    ensures (forall i :: 0 <= i < 16 ==> a[i] == b[i]) ==> a == b
  {}

  /** Chains that have come apart stay apart over the same blocks. */
  lemma {:induction false} CbcKeepsDifference(E: Cipher, x: Block, y: Block, bs: seq<Block>)
    requires KeepsApart(E) && x != y
    ensures Cbc(E, x, bs) != Cbc(E, y, bs)
    decreases |bs|
  {
    if bs != [] {
      if XorBlock(x, bs[0]) == XorBlock(y, bs[0]) {
        XorBlockInjective(x, y, bs[0], bs[0]);
      }
      CbcKeepsDifference(E, E(XorBlock(x, bs[0])), E(XorBlock(y, bs[0])), bs[1..]);
    }
  }

  /** Changing one block, any one, changes the whole MAC. */
  lemma OneBlockChangesMac(E: Cipher, x: Block, before: seq<Block>, a: Block, b: Block, after: seq<Block>)
    requires KeepsApart(E) && a != b
    ensures Cbc(E, x, before + [a] + after) != Cbc(E, x, before + [b] + after)
  {
    var y := Cbc(E, x, before);
    CbcAppend(E, x, before + [a], after);
    CbcAppend(E, x, before + [b], after);
    CbcAppend(E, x, before, [a]);
    CbcAppend(E, x, before, [b]);
    CbcOne(E, y, a);
    CbcOne(E, y, b);
    if XorBlock(y, a) == XorBlock(y, b) {
      XorBlockInjective(y, y, a, b);
    }
    CbcKeepsDifference(E, E(XorBlock(y, a)), E(XorBlock(y, b)), after);
  }

  lemma CbcOne(E: Cipher, y: Block, a: Block)
    ensures Cbc(E, y, [a]) == E(XorBlock(y, a))
  {
    assert [a][1..] == [];
  }

  /** Where the chunk that holds byte `i` lies among the others. */
  lemma {:induction false} ChunkOf(s: seq<byte>, i: nat, b: byte) returns (before: seq<Block>, x: Block, y: Block, after: seq<Block>)
    requires i < |s| && b != s[i]
    ensures Chunks(s) == before + [x] + after && Chunks(s[i := b]) == before + [y] + after && x != y
    decreases |s|
  {
    var n := Min(16, |s|);
    var t := s[i := b];
    if i < n {
      before, x, y, after := [], Pad(s[..n]), Pad(t[..n]), Chunks(s[n..]);
      assert x[i] == s[i] && y[i] == b;
      assert t[n..] == s[n..];
      assert [] + [x] == [x] && [] + [y] == [y];
    } else {
      var rest;
      rest, x, y, after := ChunkOf(s[n..], i - n, b);
      assert t[..n] == s[..n] && t[n..] == s[n..][i - n := b];
      before := [Pad(s[..n])] + rest;
      assert before + [x] + after == [Pad(s[..n])] + (rest + [x] + after);
      assert before + [y] + after == [Pad(s[..n])] + (rest + [y] + after);
    }
  }

  /** Changing one byte of the message changes its MAC. */
  lemma OneByteChangesMac(E: Cipher, nonce: Nonce, aad: seq<byte>, msg: seq<byte>, i: nat, b: byte)
    requires KeepsApart(E) && i < |msg| && b != msg[i]
    ensures CbcMac(E, MacBlocks(nonce, aad, msg[i := b])) != CbcMac(E, MacBlocks(nonce, aad, msg))
  {
    hide Chunks, FirstBlock, AadChunks, Cbc;
    var before, x, y, after := ChunkOf(msg, i, b);
    var front := [FirstBlock(nonce, |aad|, |msg|)] + AadChunks(aad);
    assert front + (before + [x] + after) == (front + before) + [x] + after;
    assert front + (before + [y] + after) == (front + before) + [y] + after;
    OneBlockChangesMac(E, Zeros(16), front + before, x, y, after);
  }

  // ----- counter mode -----

  function CounterBlock(nonce: Nonce, i: nat): Block {
    [1] + nonce + Be16(i)
  }

  function Mask(E: Cipher, nonce: Nonce, i: nat): Block {
    E(CounterBlock(nonce, i))
  }

  /** Byte `k` of a message is masked by byte `k mod 16` of counter block `k/16 + 1`. */
  function Crypt(E: Cipher, nonce: Nonce, s: seq<byte>): (r: seq<byte>)
    ensures |r| == |s|
  {
    seq(|s|, k requires 0 <= k < |s| => s[k] ^ Mask(E, nonce, k / 16 + 1)[k % 16])
  }

  /** The MAC of a message, cut to eight bytes and masked with counter block 0. */
  function Tag(E: Cipher, nonce: Nonce, aad: seq<byte>, msg: seq<byte>): Mic {
    var t := CbcMac(E, MacBlocks(nonce, aad, msg));
    var s0 := Mask(E, nonce, 0);
    seq(8, i requires 0 <= i < 8 => t[i] ^ s0[i])
  }

  function Encrypt(E: Cipher, nonce: Nonce, aad: seq<byte>, msg: seq<byte>): Sealed {
    Sealed(Crypt(E, nonce, msg), Tag(E, nonce, aad, msg))
  }

  /** Decryption is defined by what it inverts, not by how it is computed:
      the message that encrypts to the pair, if there is one. */
  ghost function Decrypt(E: Cipher, nonce: Nonce, aad: seq<byte>, s: Sealed): Option<seq<byte>> {
    if exists m :: Encrypt(E, nonce, aad, m) == s then
      var m :| Encrypt(E, nonce, aad, m) == s;
      Some(m)
    else
      None
  }

  lemma CryptInvolution(E: Cipher, nonce: Nonce, s: seq<byte>)
    ensures Crypt(E, nonce, Crypt(E, nonce, s)) == s
  {
    var c := Crypt(E, nonce, s);
    forall k | 0 <= k < |s|
      ensures Crypt(E, nonce, c)[k] == s[k]
    {
      var p := Mask(E, nonce, k / 16 + 1)[k % 16];
      assert c[k] == s[k] ^ p;
      assert (s[k] ^ p) ^ p == s[k];
    }
  }

  /** The text is masked by counter blocks 1 on, as many as it has chunks, and by
      nothing else of the cipher: in particular not by block 0, the MAC's. */
  lemma CryptFootprint(E: Cipher, F: Cipher, nonce: Nonce, s: seq<byte>)
    requires forall c :: 1 <= c <= (|s| + 15) / 16 ==> Mask(E, nonce, c) == Mask(F, nonce, c)
    ensures Crypt(E, nonce, s) == Crypt(F, nonce, s)
  {
    hide Mask;
    forall k | 0 <= k < |s|
      ensures Crypt(E, nonce, s)[k] == Crypt(F, nonce, s)[k]
    {
      assert 1 <= k / 16 + 1 <= (|s| + 15) / 16;
    }
  }

  /** A pair is the encryption of at most one message, and it is of one exactly
      when the tag of its deciphered text is the MIC that came with it. */
  lemma DecryptExact(E: Cipher, nonce: Nonce, aad: seq<byte>, s: Sealed, m: seq<byte>)
    ensures Encrypt(E, nonce, aad, m) == s
       <==> m == Crypt(E, nonce, s.text) && Tag(E, nonce, aad, m) == s.mic
    ensures Decrypt(E, nonce, aad, s) == Some(m) <==> Encrypt(E, nonce, aad, m) == s
  {
    CryptInvolution(E, nonce, m);
    CryptInvolution(E, nonce, s.text);
    if Decrypt(E, nonce, aad, s).Some? {
      var d := Decrypt(E, nonce, aad, s).value;
      CryptInvolution(E, nonce, d);
    }
  }

  /** Opening what was sealed gives the message back, for every message. */
  lemma DecryptEncrypt(E: Cipher, nonce: Nonce, aad: seq<byte>, msg: seq<byte>)
    ensures Decrypt(E, nonce, aad, Encrypt(E, nonce, aad, msg)) == Some(msg)
  {
    DecryptExact(E, nonce, aad, Encrypt(E, nonce, aad, msg), msg);
  }

  // ----- the formatting is injective and prefix-free -----

  lemma {:induction false} ChunksCount(s: seq<byte>)
    ensures |Chunks(s)| == (|s| + 15) / 16
    decreases |s|
  {
    if s != [] {
      ChunksCount(s[Min(16, |s|)..]);
    }
  }

  lemma PadInjective(a: seq<byte>, b: seq<byte>)
    requires |a| == |b| <= 16 && Pad(a) == Pad(b)
    ensures a == b
  {
    assert a == Pad(a)[..|a|];
    assert b == Pad(b)[..|b|];
  }

  /** Among texts of one length, the chunks say which text it was. */
  lemma {:induction false} ChunksInjective(a: seq<byte>, b: seq<byte>)
    requires |a| == |b| && Chunks(a) == Chunks(b)
    ensures a == b
    decreases |a|
  {
    if a != [] {
      var n := Min(16, |a|);
      assert Chunks(a)[0] == Chunks(b)[0];
      PadInjective(a[..n], b[..n]);
      assert Chunks(a)[1..] == Chunks(b)[1..];
      ChunksInjective(a[n..], b[n..]);
      assert a == a[..n] + a[n..] && b == b[..n] + b[n..];
    }
  }

  lemma FirstBlockInjective(n1: Nonce, a1: nat, l1: nat, n2: Nonce, a2: nat, l2: nat)
    requires FirstBlock(n1, a1, l1) == FirstBlock(n2, a2, l2)
    ensures n1 == n2 && (a1 == 0 <==> a2 == 0) && l1 % 0x1_0000 == l2 % 0x1_0000
  {
    var f1, f2 := FirstBlock(n1, a1, l1), FirstBlock(n2, a2, l2);
    assert f1[0] == f2[0];
    assert n1 == f1[1..14] && n2 == f2[1..14];
    assert Be16(l1) == f1[14..] && Be16(l2) == f2[14..];
    Be16Injective(l1, l2);
  }

  /** The first chunk of a non-empty AAD begins with its length. */
  lemma AadHead(aad: seq<byte>)
    requires aad != []
    ensures |AadChunks(aad)| == (|aad| + 17) / 16
    ensures AadChunks(aad)[0][..2] == Be16(|aad|)
  {
    var s := Be16(|aad|) + aad;
    ChunksCount(s);
    var n := Min(16, |s|);
    assert Pad(s[..n])[..2] == Be16(|aad|);
  }

  /** Where the three parts of the MAC's input lie. */
  lemma MacBlocksParts(nonce: Nonce, aad: seq<byte>, msg: seq<byte>)
    ensures var b, c := MacBlocks(nonce, aad, msg), |AadChunks(aad)|;
      && |b| == 1 + c + |Chunks(msg)|
      && b[0] == FirstBlock(nonce, |aad|, |msg|)
      && b[1..1 + c] == AadChunks(aad)
      && b[1 + c..] == Chunks(msg)
  {}

  lemma SameShort(m: nat, n: nat)
    requires m < 0x1_0000 && n < 0x1_0000 && m % 0x1_0000 == n % 0x1_0000
    ensures m == n
  {}

  lemma SameAadLength(m: nat, n: nat)
    requires m <= 0x1_0000 && n <= 0x1_0000 && (m == 0 <==> n == 0)
    requires m % 0x1_0000 == n % 0x1_0000
    ensures m == n
  {}

  /** Two AADs whose blocks start alike are of one length, and so are their blocks. */
  lemma AadSameLength(a1: seq<byte>, a2: seq<byte>)
    requires |a1| <= 0x1_0000 && |a2| <= 0x1_0000 && (a1 == [] <==> a2 == [])
    requires a1 != [] ==>
      |AadChunks(a1)| > 0 && |AadChunks(a2)| > 0 && AadChunks(a1)[0] == AadChunks(a2)[0]
    ensures |a1| == |a2| && |AadChunks(a1)| == |AadChunks(a2)|
  {
    if a1 != [] {
      AadHead(a1);
      AadHead(a2);
      Be16Injective(|a1|, |a2|);
    }
    SameAadLength(|a1|, |a2|);
  }

  lemma AadChunksInjective(a1: seq<byte>, a2: seq<byte>)
    requires |a1| == |a2| && AadChunks(a1) == AadChunks(a2)
    ensures a1 == a2
  {
    if a1 != [] {
      ChunksInjective(Be16(|a1|) + a1, Be16(|a2|) + a2);
      assert a1 == (Be16(|a1|) + a1)[2..] && a2 == (Be16(|a2|) + a2)[2..];
    }
  }

  /** A prefix has the nonce and both lengths of what it is a prefix of. */
  lemma PrefixSameShape(n1: Nonce, a1: seq<byte>, m1: seq<byte>, n2: Nonce, a2: seq<byte>, m2: seq<byte>)
    requires |a1| <= 0x1_0000 && |a2| <= 0x1_0000 && |m1| < 0x1_0000 && |m2| < 0x1_0000
    requires MacBlocks(n1, a1, m1) <= MacBlocks(n2, a2, m2)
    ensures n1 == n2 && |a1| == |a2| && |m1| == |m2|
    ensures |AadChunks(a1)| == |AadChunks(a2)|
  {
    var b1, b2 := MacBlocks(n1, a1, m1), MacBlocks(n2, a2, m2);
    MacBlocksParts(n1, a1, m1);
    MacBlocksParts(n2, a2, m2);
    assert b1[0] == b2[0];
    FirstBlockInjective(n1, |a1|, |m1|, n2, |a2|, |m2|);
    SameShort(|m1|, |m2|);
    if a1 != [] {
      AadHead(a1);
      AadHead(a2);
      assert b1[1] == AadChunks(a1)[0] && b2[1] == AadChunks(a2)[0];
    }
    AadSameLength(a1, a2);
  }

  /** One input's blocks being a prefix of another's, or equal to them, means
      the two inputs are the same input. */
  lemma FormattingPrefixFree(n1: Nonce, a1: seq<byte>, m1: seq<byte>, n2: Nonce, a2: seq<byte>, m2: seq<byte>)
    requires |a1| <= 0x1_0000 && |a2| <= 0x1_0000 && |m1| < 0x1_0000 && |m2| < 0x1_0000
    requires MacBlocks(n1, a1, m1) <= MacBlocks(n2, a2, m2)
    ensures n1 == n2 && a1 == a2 && m1 == m2
  {
    PrefixSameShape(n1, a1, m1, n2, a2, m2);
    ChunksCount(m1);
    ChunksCount(m2);
    SameParts(MacBlocks(n1, a1, m1), AadChunks(a1), Chunks(m1), MacBlocks(n2, a2, m2), AadChunks(a2), Chunks(m2));
    AadChunksInjective(a1, a2);
    ChunksInjective(m1, m2);
  }

  lemma SameParts<T>(b1: seq<T>, c1: seq<T>, d1: seq<T>, b2: seq<T>, c2: seq<T>, d2: seq<T>)
    requires b1 <= b2 && |b1| > 0 && |b2| > 0 && |c1| == |c2| && |d1| == |d2|
    requires b1 == [b1[0]] + c1 + d1 && b2 == [b2[0]] + c2 + d2
    ensures c1 == c2 && d1 == d2
  {
    var c := 1 + |c1|;
    assert c1 == b1[1..c] && c2 == b2[1..c];
    assert d1 == b1[c..] && d2 == b2[c..];
  }

  ghost predicate PrefixFreeUpTo(aadLimit: nat, msgLimit: nat) {
    forall n1: Nonce, a1, m1, n2: Nonce, a2, m2
      | |a1| <= aadLimit && |a2| <= aadLimit && |m1| <= msgLimit && |m2| <= msgLimit
        && MacBlocks(n1, a1, m1) <= MacBlocks(n2, a2, m2)
      :: n1 == n2 && a1 == a2 && m1 == m2
  }

  /** The MAC's input is one zero block's worth longer, and nothing else differs. */
  lemma ZeroAadExtends(n: Nonce)
    ensures MacBlocks(n, Zeros(1), []) <= MacBlocks(n, Zeros(0x1_0001), [])
  {
    var short, long := Zeros(1), Zeros(0x1_0001);
    Be16Injective(1, 0x1_0001);
    var s, l := Be16(1) + short, Be16(0x1_0001) + long;
    assert Pad(s[..3]) == Pad(l[..16]);
    assert s[3..] == [];
    assert Chunks(s) == [Pad(s[..3])] + Chunks(s[3..]);
    assert Chunks(l) == [Pad(l[..16])] + Chunks(l[16..]);
    assert |short| != 0 && |long| != 0;
  }

  /** A message of 65536 zeros extends the blocks of the empty message. */
  lemma ZeroMessageExtends(n: Nonce)
    ensures MacBlocks(n, [], []) <= MacBlocks(n, [], Zeros(0x1_0000))
  {
    Be16Injective(0, 0x1_0000);
    assert FirstBlock(n, 0, 0) == FirstBlock(n, 0, 0x1_0000);
    assert MacBlocks(n, [], []) == [FirstBlock(n, 0, 0)];
  }

  /** Both lengths are cut to two bytes, so the formatting is prefix-free for
      exactly these sizes: an AAD of 65537 bytes reads as one of 1 byte, a
      message of 65536 bytes as an empty one. */
  lemma PrefixFreeExactly(aadLimit: nat, msgLimit: nat)
    ensures PrefixFreeUpTo(aadLimit, msgLimit) <==> aadLimit <= 0x1_0000 && msgLimit < 0x1_0000
  {
    var n: Nonce := Zeros(13);
    if aadLimit > 0x1_0000 {
      ZeroAadExtends(n);
      assert |Zeros(1)| != |Zeros(0x1_0001)|;
    } else if msgLimit >= 0x1_0000 {
      ZeroMessageExtends(n);
      assert |Zeros(0x1_0000)| != 0;
    } else {
      forall n1: Nonce, a1, m1, n2: Nonce, a2, m2
        | |a1| <= aadLimit && |a2| <= aadLimit && |m1| <= msgLimit && |m2| <= msgLimit
          && MacBlocks(n1, a1, m1) <= MacBlocks(n2, a2, m2)
        ensures n1 == n2 && a1 == a2 && m1 == m2
      {
        FormattingPrefixFree(n1, a1, m1, n2, a2, m2);
      }
    }
  }

  // ----- counter blocks never meet -----

  /** Counter blocks repeat only for the same nonce and the same 16 bit count. */
  lemma CounterBlockExact(n1: Nonce, i: nat, n2: Nonce, j: nat)
    ensures CounterBlock(n1, i) == CounterBlock(n2, j)
       <==> n1 == n2 && i % 0x1_0000 == j % 0x1_0000
  {
    Be16Injective(i, j);
    var b1, b2 := CounterBlock(n1, i), CounterBlock(n2, j);
    assert n1 == b1[1..14] && n2 == b2[1..14];
    assert Be16(i) == b1[14..] && Be16(j) == b2[14..];
  }

  /** No counter block is ever the first block of a MAC. */
  lemma CounterBlockIsNoMacBlock(n1: Nonce, i: nat, n2: Nonce, aadLen: nat, len: nat)
    ensures CounterBlock(n1, i) != FirstBlock(n2, aadLen, len)
  {
    assert CounterBlock(n1, i)[0] == 1;
    assert FirstBlock(n2, aadLen, len)[0] != 1;
  }
}
