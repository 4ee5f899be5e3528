/** The blocks of CCM byte by byte, as RFC 3610 writes them down for M = 8 and
    L = 2, and which of them each part of the answer rests on. */
module CcmLayout {
  import opened Bytes
  import opened CcmSpec

  /** The two bytes of a count, the high one first. */
  predicate Says16(hi: byte, lo: byte, n: nat) {
    hi as nat == n / 256 % 256 && lo as nat == n % 256
  }

  lemma Be16Is(n: nat, hi: byte, lo: byte)
    requires Says16(hi, lo, n)
    ensures Be16(n) == [hi, lo]
  {
    hide Lo;
    LoOf(hi, n / 256);
    LoOf(lo, n);
  }

  /** Section 2.2: bit 6 for an AAD, (M - 2) / 2 in bits 3 to 5, L - 1 below; the
      nonce; the message's length. */
  lemma FirstBlockIs(nonce: Nonce, aadLen: nat, len: nat, hi: byte, lo: byte)
    requires Says16(hi, lo, len)
    ensures var flags := (if aadLen > 0 then 64 else 0) + 8 * ((8 - 2) / 2) + (2 - 1);
      var b := FirstBlock(nonce, aadLen, len);
      b[0] as nat == flags && b[1..14] == nonce && b[14] == hi && b[15] == lo
  {
    Be16Is(len, hi, lo);
  }

  /** Section 2.3: L - 1, the nonce, the count. */
  lemma CounterBlockIs(nonce: Nonce, i: nat, hi: byte, lo: byte)
    requires Says16(hi, lo, i)
    ensures CounterBlock(nonce, i) == [2 - 1] + nonce + [hi, lo]
  {
    Be16Is(i, hi, lo);
  }

  /** Byte `j` of block `k`, and zeros past the end. */
  lemma {:induction false} ChunkAt(s: seq<byte>, k: nat, j: nat)
    requires 16 * k < |s| && j < 16
    ensures k < |Chunks(s)| && Chunks(s)[k][j] == if 16 * k + j < |s| then s[16 * k + j] else 0
    decreases k
  {
    ChunksCount(s);
    if k > 0 {
      ChunkAt(s[16..], k - 1, j);
    }
  }

  /** A non-empty AAD comes with its length in front. */
  lemma AadChunksAre(aad: seq<byte>, hi: byte, lo: byte)
    requires Says16(hi, lo, |aad|)
    ensures AadChunks(aad) == if aad == [] then [] else Chunks([hi, lo] + aad)
  {
    hide Chunks;
    Be16Is(|aad|, hi, lo);
  }

  /** The MAC of one block is that block enciphered; another block is mixed in byte
      by byte and the whole enciphered again. */
  lemma CbcMacGrows(E: Cipher, bs: seq<Block>, b: Block) returns (x: Block)
    ensures CbcMac(E, bs + [b]) == E(x)
    ensures bs == [] ==> x == b
    ensures bs != [] ==> forall i :: 0 <= i < 16 ==> x[i] == CbcMac(E, bs)[i] ^ b[i]
  {
    x := XorBlock(Cbc(E, Zeros(16), bs), b);
    CbcAppend(E, Zeros(16), bs, [b]);
    CbcOne(E, Cbc(E, Zeros(16), bs), b);
    if bs == [] {
      ZeroMixed(b);
    } else {
      forall i | 0 <= i < 16
        ensures x[i] == CbcMac(E, bs)[i] ^ b[i]
      {
        XorBlockAt(CbcMac(E, bs), b, i);
      }
    }
  }

  lemma ZeroMixed(b: Block)
    ensures XorBlock(Zeros(16), b) == b
  {
    forall i | 0 <= i < 16
      ensures XorBlock(Zeros(16), b)[i] == b[i]
    {
      XorBlockAt(Zeros(16), b, i);
      assert Zeros(16)[i] == 0;
      XorZero(b[i]);
    }
  }

  lemma XorZero(b: byte)
    ensures 0 ^ b == b
  {}

  /** The MIC is masked by counter block 0 and by nothing else of the cipher: two
      ciphers that give one MAC give one MIC exactly when they agree on the first
      eight bytes of that block, whatever they do on the others. */
  lemma MicFootprint(E: Cipher, F: Cipher, nonce: Nonce, aad: seq<byte>, msg: seq<byte>)
    requires CbcMac(E, MacBlocks(nonce, aad, msg)) == CbcMac(F, MacBlocks(nonce, aad, msg))
    ensures var zero: Block := [1] + nonce + [0, 0];
      Tag(E, nonce, aad, msg) == Tag(F, nonce, aad, msg) <==> E(zero)[..8] == F(zero)[..8]
  {
    var zero: Block := [1] + nonce + [0, 0];
    CounterBlockIs(nonce, 0, 0, 0);
    hide CbcMac, MacBlocks, CounterBlock, Tag;
    var e, f := E(zero), F(zero);
    forall i | 0 <= i < 8
      ensures Tag(E, nonce, aad, msg)[i] == Tag(F, nonce, aad, msg)[i] <==> e[..8][i] == f[..8][i]
    {
      MicByteSame(E, F, nonce, aad, msg, zero, i);
    }
    SameEight(Tag(E, nonce, aad, msg), Tag(F, nonce, aad, msg), e[..8], f[..8]);
  }

  lemma SameEight(a: seq<byte>, b: seq<byte>, x: seq<byte>, y: seq<byte>)
    requires |a| == |b| == |x| == |y| == 8
    requires forall i :: 0 <= i < 8 ==> (a[i] == b[i] <==> x[i] == y[i])
    ensures a == b <==> x == y
  {
    if x == y {
      assert forall i :: 0 <= i < 8 ==> a[i] == b[i];
    }
    if a == b {
      assert forall i :: 0 <= i < 8 ==> x[i] == y[i];
    }
  }

  lemma MicByteSame(E: Cipher, F: Cipher, nonce: Nonce, aad: seq<byte>, msg: seq<byte>, zero: Block, i: nat)
    requires i < 8 && zero == CounterBlock(nonce, 0)
    requires CbcMac(E, MacBlocks(nonce, aad, msg)) == CbcMac(F, MacBlocks(nonce, aad, msg))
    ensures Tag(E, nonce, aad, msg)[i] == Tag(F, nonce, aad, msg)[i] <==> E(zero)[i] == F(zero)[i]
  {
    hide CbcMac, MacBlocks, CounterBlock;
    MicByteAt(E, nonce, aad, msg, zero, i);
    MicByteAt(F, nonce, aad, msg, zero, i);
    hide Tag;
    var t := CbcMac(E, MacBlocks(nonce, aad, msg))[i];
    SameUnderMask(t, E(zero)[i], F(zero)[i], Tag(E, nonce, aad, msg)[i], Tag(F, nonce, aad, msg)[i]);
  }

  lemma SameUnderMask(t: byte, a: byte, b: byte, x: byte, y: byte)
    requires x == t ^ a && y == t ^ b
    ensures x == y <==> a == b
  {}

  lemma MicByteAt(E: Cipher, nonce: Nonce, aad: seq<byte>, msg: seq<byte>, zero: Block, i: nat)
    requires i < 8 && zero == CounterBlock(nonce, 0)
    ensures Tag(E, nonce, aad, msg)[i] == CbcMac(E, MacBlocks(nonce, aad, msg))[i] ^ E(zero)[i]
  {
    hide CbcMac, MacBlocks, CounterBlock;
  }

  /** Byte `k` of the text: under byte `k mod 16` of counter block `k/16 + 1`. */
  lemma TextByte(E: Cipher, nonce: Nonce, s: seq<byte>, k: nat, hi: byte, lo: byte)
    requires k < |s| && Says16(hi, lo, k / 16 + 1)
    ensures Crypt(E, nonce, s)[k] == s[k] ^ E([1] + nonce + [hi, lo])[k % 16]
  {
    CounterBlockIs(nonce, k / 16 + 1, hi, lo);
    hide CounterBlock;
  }
}
