/** CCM as the kernel runs it: block buffers refilled in place, and one memory
    in which the input, the output and the MIC are addresses that may overlap. */
module Ccm {
  import opened Bytes
  import opened CcmSpec

  method EncryptBlock(E: Cipher, b: array<byte>, x: array<byte>)
    requires b.Length == 16 && x.Length == 16
    modifies x
    ensures x[..] == E(old(b[..]))
  {
    var r := E(b[..]);
    forall i | 0 <= i < 16 {
      x[i] := r[i];
    }
  }

  /** `b` takes `x ^ b`, byte by byte. */
  method XorInto(b: array<byte>, x: array<byte>)
    requires b.Length == 16 && x.Length == 16 && b != x
    modifies b
    ensures b[..] == XorBlock(x[..], old(b[..]))
  {
    for i := 0 to 16
      invariant forall k :: 0 <= k < i ==> b[k] == x[k] ^ old(b[k])
      invariant forall k :: i <= k < 16 ==> b[k] == old(b[k])
    {
      b[i] := b[i] ^ x[i];
    }
  }

  method Clear(b: array<byte>)
    requires b.Length == 16
    modifies b
    ensures b[..] == Zeros(16)
  {
    forall i | 0 <= i < 16 {
      b[i] := 0;
    }
  }

  lemma ChunksStep(s: seq<byte>, n: nat)
    requires s != [] && n == Min(16, |s|)
    ensures Chunks(s) == [Pad(s[..n])] + Chunks(s[n..])
    ensures Chunks(s)[0] == Pad(s[..n]) && Chunks(s)[1..] == Chunks(s[n..])
  {}

  /** One turn of the chain takes one chunk. */
  lemma CbcStep(E: Cipher, x: Block, s: seq<byte>, n: nat)
    requires s != [] && n == Min(16, |s|)
    ensures Cbc(E, x, Chunks(s)) == Cbc(E, E(XorBlock(x, Pad(s[..n]))), Chunks(s[n..]))
  {
    ChunksStep(s, n);
  }

  method FillLength(n: nat, b: array<byte>)
    requires b.Length == 16
    modifies b
    ensures b[..2] == Be16(n)
    ensures forall i :: 2 <= i < 16 ==> b[i] == 0
  {
    Clear(b);
    assert forall i :: 0 <= i < 16 ==> b[..][i] == 0;
    b[0] := Lo(n / 256);
    b[1] := Lo(n);
  }

  /** The inner loop over the AAD: what is in `b` so far and what is left to
      come stay one text, and `b` ends full or the AAD at its end. */
  method Fill(aad: seq<byte>, at0: nat, fill0: nat, b: array<byte>) returns (at: nat, fill: nat)
    requires b.Length == 16 && at0 < |aad| && fill0 < 16
    requires forall i :: fill0 <= i < 16 ==> b[i] == 0
    modifies b
    ensures at0 < at <= |aad| && fill <= 16 && (fill == 16 || at == |aad|)
    ensures b[..] == Pad(b[..fill])
    ensures b[..fill] + aad[at..] == old(b[..fill0]) + aad[at0..]
  {
    at, fill := at0, fill0;
    while fill < 16 && at < |aad|
      invariant 0 <= fill <= 16 && at <= |aad| && at - at0 == fill - fill0
      invariant b[..fill] + aad[at..] == old(b[..fill0]) + aad[at0..]
      invariant forall i :: fill <= i < 16 ==> b[i] == 0
    {
      b[fill] := aad[at];
      fill, at := fill + 1, at + 1;
    }
  }

  /** The chain over the AAD: the length's two bytes first, so the first block
      starts filling at 2. */
  method MacAad(E: Cipher, aad: seq<byte>, b: array<byte>, x: array<byte>)
    requires aad != [] && b.Length == 16 && x.Length == 16 && b != x
    modifies b, x
    ensures x[..] == Cbc(E, old(x[..]), AadChunks(aad))
  {
    hide Be16, XorBlock, Pad, Cbc;
    ghost var goal := Cbc(E, x[..], AadChunks(aad));
    var at, fill := 0, 2;
    FillLength(|aad|, b);
    assert aad[0..] == aad;
    while at < |aad|
      invariant at <= |aad| && (fill == 0 || (fill == 2 && at == 0))
      invariant forall i :: fill <= i < 16 ==> b[i] == 0
      invariant Cbc(E, x[..], Chunks(b[..fill] + aad[at..])) == goal
      invariant at == |aad| ==> fill == 0
    {
      ghost var pending := b[..fill] + aad[at..];
      at, fill := Fill(aad, at, fill, b);
      assert pending[..fill] == b[..fill] && pending[fill..] == aad[at..];
      CbcStep(E, x[..], pending, fill);
      XorInto(b, x);
      EncryptBlock(E, b, x);
      Clear(b);
      assert forall i :: 0 <= i < 16 ==> b[..][i] == 0;
      fill := 0;
      assert b[..0] + aad[at..] == aad[at..];
    }
    assert b[..fill] + aad[at..] == [];
    CbcNothing(E, x[..]);
  }

  lemma CbcNothing(E: Cipher, x: Block)
    ensures Cbc(E, x, Chunks([])) == x
    ensures Cbc(E, x, AadChunks([])) == x
  {}

  /** `b` takes the next `n` bytes of the message, padded, mixed with `x`. */
  method MixChunk(mem: array<byte>, from: nat, n: nat, b: array<byte>, x: array<byte>)
    requires n <= 16 && from + n <= mem.Length && b.Length == 16 && x.Length == 16
    requires b != x && b != mem && x != mem
    modifies b
    ensures b[..] == XorBlock(x[..], Pad(mem[from..from + n]))
  {
    ghost var padded := Pad(mem[from..from + n]);
    for i := 0 to 16
      invariant forall k :: 0 <= k < i ==> b[k] == x[k] ^ padded[k]
    {
      b[i] := x[i] ^ (if i < n then mem[from + i] else 0);
    }
  }

  /** The chain over the message, read from memory 16 bytes at a time. */
  method MacMessage(E: Cipher, mem: array<byte>, msg: nat, len: nat, b: array<byte>, x: array<byte>)
    requires msg + len <= mem.Length && b.Length == 16 && x.Length == 16
    requires b != x && b != mem && x != mem
    modifies b, x
    ensures x[..] == Cbc(E, old(x[..]), Chunks(mem[msg..msg + len]))
  {
    hide XorBlock, Pad, Cbc, Chunks;
    ghost var goal, text := Cbc(E, x[..], Chunks(mem[msg..msg + len])), mem[msg..msg + len];
    var at := 0;
    assert text[0..] == text;
    while at < len
      invariant Cbc(E, x[..], Chunks(text[Min(at, len)..])) == goal
    {
      var n := if len - at < 16 then len - at else 16;
      ghost var rest := text[at..];
      assert rest[..n] == mem[msg + at..msg + at + n] && rest[n..] == text[Min(at + 16, len)..];
      CbcStep(E, x[..], rest, n);
      MixChunk(mem, msg + at, n, b, x);
      EncryptBlock(E, b, x);
      at := at + 16;
    }
    assert text[Min(at, len)..] == [];
    CbcNothing(E, x[..]);
  }

  method FillFirst(nonce: Nonce, aadLen: nat, len: nat, b: array<byte>)
    requires b.Length == 16
    modifies b
    ensures b[..] == FirstBlock(nonce, aadLen, len)
  {
    b[0] := (if aadLen != 0 then 0x40 else 0) | (3 << 3) | 1;
    forall i | 0 <= i < 13 {
      b[1 + i] := nonce[i];
    }
    b[14] := Lo(len / 256);
    b[15] := Lo(len);
  }

  /** `ccm_mac`: the pure CBC-MAC over the three parts in order. The message is
      `len` bytes of memory at `msg`; the 32 bit counter `at` does not wrap. */
  method Mac(E: Cipher, nonce: Nonce, aad: seq<byte>, mem: array<byte>, msg: nat, len: nat, t: array<byte>)
    requires msg + len <= mem.Length && t.Length == 16 && t != mem
    requires len <= TWO_32 - 16
    modifies t
    ensures t[..] == CbcMac(E, MacBlocks(nonce, aad, mem[msg..msg + len]))
  {
    hide Lo, Chunks, AadChunks, Cbc, FirstBlock;
    var x, b := new byte[16], new byte[16];
    ghost var text := mem[msg..msg + len];
    FillFirst(nonce, |aad|, len, b);
    EncryptBlock(E, b, x);
    if |aad| != 0 {
      MacAad(E, aad, b, x);
    } else {
      CbcNothing(E, x[..]);
    }
    MacMessage(E, mem, msg, len, b, x);
    forall i | 0 <= i < 16 {
      t[i] := x[i];
    }
    MacInParts(E, FirstBlock(nonce, |aad|, len), AadChunks(aad), Chunks(text));
    assert mem[msg..msg + len] == text;
    assert t[..] == x[..];
  }

  /** The chain taken part by part is the chain over the whole. */
  lemma MacInParts(E: Cipher, first: Block, a: seq<Block>, b: seq<Block>)
    ensures CbcMac(E, [first] + a + b) == Cbc(E, Cbc(E, E(first), a), b)
  {
    assert [first] + a + b == [first] + (a + b);
    assert ([first] + (a + b))[1..] == a + b;
    assert XorBlock(Zeros(16), first) == first;
    CbcAppend(E, E(first), a, b);
  }

  method Counter(E: Cipher, nonce: Nonce, i: nat, s: array<byte>)
    requires s.Length == 16
    modifies s
    ensures s[..] == Mask(E, nonce, i)
  {
    var b := new byte[16];
    b[0] := 1;
    forall k | 0 <= k < 13 {
      b[1 + k] := nonce[k];
    }
    b[14] := Lo(i / 256);
    b[15] := Lo(i);
    assert b[..] == CounterBlock(nonce, i);
    EncryptBlock(E, b, s);
  }

  /** Where the output may lie against the input: at or before it, or clear of
      it. An output starting inside the input would overwrite what is still to
      be read. */
  predicate MayOverwrite(input: nat, output: nat, len: nat) {
    output <= input || input + len <= output
  }

  predicate Disjoint(a: nat, aLen: nat, b: nat, bLen: nat) {
    a + aLen <= b || b + bLen <= a
  }

  /** `ccm_crypt`, in place or from one part of memory to another. */
  method CryptInto(E: Cipher, nonce: Nonce, mem: array<byte>, input: nat, len: nat, output: nat)
    requires input + len <= mem.Length && output + len <= mem.Length
    requires MayOverwrite(input, output, len) && len <= TWO_32 - 16
    modifies mem
    ensures mem[output..output + len] == Crypt(E, nonce, old(mem[input..input + len]))
    ensures forall k :: 0 <= k < mem.Length && !(output <= k < output + len) ==> mem[k] == old(mem[k])
  {
    hide Mask, Crypt;
    var s := new byte[16];
    ghost var text := mem[input..input + len];
    ghost var cipher := Crypt(E, nonce, text);
    var at, i := 0, 1;
    while at < len
      invariant at == 16 * (i - 1) && i >= 1
      invariant forall k :: output <= k < output + Min(at, len) ==> mem[k] == cipher[k - output]
      invariant forall k :: input + Min(at, len) <= k < input + len ==> mem[k] == text[k - input]
      invariant forall k :: 0 <= k < mem.Length && !(output <= k < output + len) ==> mem[k] == old(mem[k])
    {
      Counter(E, nonce, i, s);
      var n := if len - at < 16 then len - at else 16;
      for k := 0 to n
        invariant s[..] == Mask(E, nonce, i)
        invariant forall j :: output <= j < output + at + k ==> mem[j] == cipher[j - output]
        invariant forall j :: input + at + k <= j < input + len ==> mem[j] == text[j - input]
        invariant forall j :: 0 <= j < mem.Length && !(output <= j < output + len) ==> mem[j] == old(mem[j])
      {
        CryptAt(E, nonce, text, at, i, k);
        mem[output + at + k] := mem[input + at + k] ^ s[k];
      }
      at, i := at + 16, i + 1;
    }
  }

  lemma CounterIndex(at: nat, i: nat, k: nat)
    requires i >= 1 && at == 16 * (i - 1) && k < 16
    ensures (at + k) / 16 + 1 == i && (at + k) % 16 == k
  {}

  lemma CryptAt(E: Cipher, nonce: Nonce, s: seq<byte>, at: nat, i: nat, k: nat)
    requires i >= 1 && at == 16 * (i - 1) && k < 16 && at + k < |s|
    ensures Crypt(E, nonce, s)[at + k] == s[at + k] ^ Mask(E, nonce, i)[k]
  {
    hide Mask;
    CounterIndex(at, i, k);
  }

  method EncryptInto(E: Cipher, nonce: Nonce, aad: seq<byte>, mem: array<byte>,
                     input: nat, len: nat, output: nat, mic: nat)
    requires input + len <= mem.Length && output + len <= mem.Length && mic + 8 <= mem.Length
    requires MayOverwrite(input, output, len) && len <= TWO_32 - 16
    requires Disjoint(mic, 8, input, len) && Disjoint(mic, 8, output, len)
    modifies mem
    ensures Sealed(mem[output..output + len], mem[mic..mic + 8])
         == Encrypt(E, nonce, aad, old(mem[input..input + len]))
    ensures forall k :: 0 <= k < mem.Length && !(output <= k < output + len) && !(mic <= k < mic + 8)
              ==> mem[k] == old(mem[k])
  {
    hide Chunks, CbcMac, MacBlocks, Mask;
    var t, s0 := new byte[16], new byte[16];
    ghost var text := mem[input..input + len];
    Mac(E, nonce, aad, mem, input, len, t);
    Counter(E, nonce, 0, s0);
    ghost var tag := Tag(E, nonce, aad, text);
    PutTag(mem, mic, t, s0, tag);
    assert mem[input..input + len] == text;
    CryptInto(E, nonce, mem, input, len, output);
    assert mem[mic..mic + 8] == tag;
  }

  method PutTag(mem: array<byte>, mic: nat, t: array<byte>, s0: array<byte>, ghost tag: Mic)
    requires mic + 8 <= mem.Length && t.Length == 16 && s0.Length == 16 && t != mem && s0 != mem
    requires forall k :: 0 <= k < 8 ==> tag[k] == t[k] ^ s0[k]
    modifies mem
    ensures mem[mic..mic + 8] == tag
    ensures forall k :: 0 <= k < mem.Length && !(mic <= k < mic + 8) ==> mem[k] == old(mem[k])
  {
    for i := 0 to 8
      invariant forall k :: 0 <= k < 8 ==> tag[k] == t[k] ^ s0[k]
      invariant forall k :: mic <= k < mic + i ==> mem[k] == tag[k - mic]
      invariant forall k :: 0 <= k < mem.Length && !(mic <= k < mic + 8) ==> mem[k] == old(mem[k])
    {
      mem[mic + i] := t[i] ^ s0[i];
    }
  }

  /** `ccm_decrypt` accepts exactly the encryptions, and then the output holds
      the one message encrypted. Whatever it answers, the output holds the
      deciphered text and nothing else of memory has changed. */
  method DecryptInto(E: Cipher, nonce: Nonce, aad: seq<byte>, mem: array<byte>,
                     input: nat, len: nat, output: nat, mic: nat) returns (ok: bool)
    requires input + len <= mem.Length && output + len <= mem.Length && mic + 8 <= mem.Length
    requires MayOverwrite(input, output, len) && len <= TWO_32 - 16
    requires Disjoint(mic, 8, output, len)
    modifies mem
    ensures var s := Sealed(old(mem[input..input + len]), old(mem[mic..mic + 8]));
      && (ok <==> Decrypt(E, nonce, aad, s).Some?)
      && (ok ==> Decrypt(E, nonce, aad, s) == Some(mem[output..output + len]))
      && mem[output..output + len] == Crypt(E, nonce, s.text)
    ensures forall k :: 0 <= k < mem.Length && !(output <= k < output + len) ==> mem[k] == old(mem[k])
  {
    hide Chunks, CbcMac, MacBlocks, Mask, Decrypt, Crypt;
    var t, s0 := new byte[16], new byte[16];
    ghost var s := Sealed(mem[input..input + len], mem[mic..mic + 8]);
    CryptInto(E, nonce, mem, input, len, output);
    ghost var text := mem[output..output + len];
    Mac(E, nonce, aad, mem, output, len, t);
    Counter(E, nonce, 0, s0);
    ghost var tag, mac := Tag(E, nonce, aad, text), t[..];
    var diff: byte := 0;
    assert forall k :: 0 <= k < 8 ==> mem[mic + k] == s.mic[k];
    for i := 0 to 8
      modifies {}
      invariant diff == 0 <==> s.mic[..i] == tag[..i]
    {
      PrefixStep(s.mic, tag, i);
      XorZero(mem[mic + i], t[i], s0[i], diff);
      diff := diff | (mem[mic + i] ^ t[i] ^ s0[i]);
    }
    ok := diff == 0;
    assert s.mic[..8] == s.mic && tag[..8] == tag;
    assert mem[output..output + len] == text;
    DecryptExact(E, nonce, aad, s, text);
    if Decrypt(E, nonce, aad, s).Some? {
      DecryptExact(E, nonce, aad, s, Decrypt(E, nonce, aad, s).value);
    }
  }

  lemma PrefixStep<T>(a: seq<T>, b: seq<T>, i: nat)
    requires i < |a| && i < |b|
    ensures a[..i + 1] == b[..i + 1] <==> a[..i] == b[..i] && a[i] == b[i]
  {
    assert a[..i + 1] == a[..i] + [a[i]] && b[..i + 1] == b[..i] + [b[i]];
  }

  lemma XorZero(m: byte, t: byte, s: byte, d: byte)
    ensures d | (m ^ t ^ s) == 0 <==> d == 0 && m == t ^ s
  {}
}
