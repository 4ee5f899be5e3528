/** The frame around CCM as the kernel builds and opens it, in place: the header,
    the body and the frame are addresses in one memory. */
module Ccmp {
  import opened Bytes
  import opened CcmSpec
  import opened CcmpSpec
  import opened CcmpFrames
  import Ccm

  const CCMP_HDR_LEN := 8
  const CCMP_MIC_LEN := 8

  /** `ccmp_hdr_len` answers exactly the length of a header the frame begins
      with, and 0 exactly when it begins with none. */
  lemma HdrLenExact(frame: seq<byte>, n: nat)
    requires n > 0
    ensures HdrLen(frame) == n <==> n <= |frame| && Proper(frame[..n])
  {
    hide IsData, IsQos, HasFourth;
    if |frame| >= 24 {
      KindBits(frame[0], frame[1]);
      if 2 <= n <= |frame| {
        assert frame[..n][0] == frame[0] && frame[..n][1] == frame[1];
      }
    }
  }

  method Copy(mem: array<byte>, from: nat, n: nat, to: nat)
    requires from + n <= mem.Length && to + n <= mem.Length
    requires from == to || Ccm.Disjoint(from, n, to, n)
    modifies mem
    ensures mem[to..to + n] == old(mem[from..from + n])
    ensures forall k :: 0 <= k < mem.Length && !(to <= k < to + n) ==> mem[k] == old(mem[k])
  {
    forall k | 0 <= k < n {
      mem[to + k] := mem[from + k];
    }
  }

  /** The bytes `s` lie in memory at `at`. */
  ghost predicate Holds(mem: array<byte>, at: nat, s: seq<byte>)
    reads mem
  {
    at + |s| <= mem.Length && forall k {:trigger s[k]} :: 0 <= k < |s| ==> mem[at + k] == s[k]
  }

  /** The frame control with what may change taken out and Protected set. */
  method Controls(fc0: byte, fc1: byte) returns (c0: byte, c1: byte)
    ensures c0 == AadControl0(fc0) && c1 == AadControl1(fc0, fc1)
  {
    var data := (fc0 >> 2) & 3 == 2;
    c0 := if data then fc0 & 0x8F else fc0;
    c1 := fc1 & !(0x08 | 0x10 | 0x20);
    c1 := c1 | 0x40;
    if data && fc0 & 0x80 != 0 {
      c1 := c1 & !0x80;
    }
  }

  /** The 22 bytes every AAD begins with. */
  method FixedAad(mem: array<byte>, hdr: nat, ghost h: seq<byte>, aad: array<byte>) returns (n: nat)
    requires Holds(mem, hdr, h) && WellSized(h) && aad.Length == 32 && aad != mem
    modifies aad
    ensures n == 22
    ensures aad[..22] == [AadControl0(h[0]), AadControl1(h[0], h[1])] + h[4..22] + [h[22] & 0x0F, 0]
  {
    hide AadControl0, AadControl1;
    assert mem[hdr] == h[0] && mem[hdr + 1] == h[1] && mem[hdr + 22] == h[22];
    var c0, c1 := Controls(mem[hdr], mem[hdr + 1]);
    n := 0;
    aad[n] := c0;
    n := n + 1;
    aad[n] := c1;
    n := n + 1;
    forall k | 0 <= k < 18 {
      aad[n + k] := mem[hdr + 4 + k];
    }
    n := n + 18;
    assert aad[2..20] == h[4..22];
    aad[n] := mem[hdr + 22] & 0x0F;
    n := n + 1;
    aad[n] := 0;
    n := n + 1;
    assert aad[..22] == [aad[0], aad[1]] + aad[2..20] + [aad[20], aad[21]];
  }

  method NonceInto(mem: array<byte>, hdr: nat, ghost h: seq<byte>, pn: nat, tid: byte, nonce: array<byte>)
    requires Holds(mem, hdr, h) && WellSized(h)
    requires tid == Tid(h) && nonce.Length == 13 && nonce != mem
    modifies nonce
    ensures nonce[..] == NonceOf(h, pn)
  {
    hide PnBytes, Tid, NonceFlags;
    assert mem[hdr] == h[0];
    nonce[0] := Flags(mem[hdr], tid, h);
    SenderInto(mem, hdr, h, nonce);
    assert nonce[..7] == [NonceFlags(h)] + h[10..16];
    PutPn(pn, nonce);
    assert nonce[..] == nonce[..7] + nonce[7..];
  }

  method Flags(fc0: byte, tid: byte, ghost h: seq<byte>) returns (flags: byte)
    requires WellSized(h) && fc0 == h[0] && tid == Tid(h)
    ensures flags == NonceFlags(h)
  {
    flags := tid | (if (fc0 >> 2) & 3 == 0 then 0x10 else 0);
  }

  /** The sender's address, behind the nonce's first byte. */
  method SenderInto(mem: array<byte>, hdr: nat, ghost h: seq<byte>, nonce: array<byte>)
    requires Holds(mem, hdr, h) && WellSized(h) && nonce.Length == 13 && nonce != mem
    modifies nonce
    ensures nonce[0] == old(nonce[0]) && nonce[1..7] == h[10..16]
  {
    forall k | 0 <= k < 6 {
      nonce[1 + k] := mem[hdr + 10 + k];
    }
    assert forall k :: 0 <= k < 6 ==> nonce[1..7][k] == h[10..16][k];
  }

  /** The packet number's six bytes, high one first, at the nonce's end. */
  method PutPn(pn: nat, nonce: array<byte>)
    requires nonce.Length == 13
    modifies nonce
    ensures nonce[..7] == old(nonce[..7]) && nonce[7..] == PnBytes(pn)
  {
    hide Lo, Shr8;
    for i := 0 to 6
      invariant forall k :: 0 <= k < 7 ==> nonce[k] == old(nonce[k])
      invariant forall k :: 7 <= k < 7 + i ==> nonce[k] == Lo(Shr8(pn, 12 - k))
    {
      nonce[7 + i] := Lo(Shr8(pn, 5 - i));
    }
  }

  /** `ccmp_aad_nonce`: both are filled in order, and the AAD ends inside its 32
      bytes. Nothing outside the header is read. */
  method AadNonce(mem: array<byte>, hdr: nat, hdrLen: nat, ghost h: seq<byte>, pn: nat, aad: array<byte>, nonce: array<byte>)
    returns (n: nat)
    requires |h| == hdrLen && Holds(mem, hdr, h) && WellSized(h)
    requires aad.Length == 32 && nonce.Length == 13 && aad != nonce && aad != mem && nonce != mem
    modifies aad, nonce
    ensures n <= 30 && aad[..n] == Aad(h)
    ensures nonce[..] == NonceOf(h, pn)
  {
    hide NonceOf, AadControl0, AadControl1;
    assert mem[hdr] == h[0] && mem[hdr + 1] == h[1];
    var data := (mem[hdr] >> 2) & 3 == 2;
    var qos := data && mem[hdr] & 0x80 != 0;
    var a4 := data && mem[hdr + 1] & 3 == 3;
    n := FixedAad(mem, hdr, h, aad);
    ghost var fixed := aad[..22];
    ghost var fourth := if a4 then h[24..30] else [];
    if a4 {
      forall k | 0 <= k < 6 {
        aad[n + k] := mem[hdr + 24 + k];
      }
      n := n + 6;
      assert forall k :: 0 <= k < 6 ==> h[24..30][k] == h[24 + k];
    }
    assert aad[..n] == fixed + fourth;
    var tid: byte := 0;
    ghost var last := [];
    if qos && hdrLen >= (if a4 then 32 else 26) {
      tid := mem[hdr + (if a4 then 30 else 24)] & 0x0F;
      assert tid == h[QosAt(h)] & 0x0F;
      aad[n] := tid;
      n := n + 1;
      aad[n] := 0;
      n := n + 1;
      last := [tid, 0];
    }
    assert aad[..n] == fixed + fourth + last;
    NonceInto(mem, hdr, h, pn, tid, nonce);
  }

  method Put(mem: array<byte>, at: nat, s: seq<byte>)
    requires at + |s| <= mem.Length
    modifies mem
    ensures mem[at..at + |s|] == s
    ensures forall k :: 0 <= k < mem.Length && !(at <= k < at + |s|) ==> mem[k] == old(mem[k])
  {
    forall k | 0 <= k < |s| {
      mem[at + k] := s[k];
    }
  }

  /** Where the parts of a frame in memory lie. */
  lemma FrameSlices(mem: array<byte>, at: nat, hdrLen: nat, n: nat)
    requires n >= hdrLen + 16 && at + n <= mem.Length
    ensures var f := mem[at..at + n];
      && f[..hdrLen] == mem[at..at + hdrLen]
      && f[hdrLen..hdrLen + 8] == mem[at + hdrLen..at + hdrLen + 8]
      && SealedPart(f, hdrLen) == Sealed(mem[at + hdrLen + 8..at + n - 8], mem[at + n - 8..at + n])
  {
    PartOfMemory(mem, at, n, 0, hdrLen);
    PartOfMemory(mem, at, n, hdrLen, hdrLen + 8);
    PartOfMemory(mem, at, n, hdrLen + 8, n - 8);
    PartOfMemory(mem, at, n, n - 8, n);
  }

  lemma PartOfMemory(mem: array<byte>, at: nat, n: nat, lo: nat, hi: nat)
    requires at + n <= mem.Length && lo <= hi <= n
    ensures mem[at..at + n][lo..hi] == mem[at + lo..at + hi]
  {
    assert mem[..][at..at + n] == mem[at..at + n];
    SliceOfSlice(mem[..], at, at + n, lo, hi);
  }

  /** The header copied to where the frame starts, its Protected bit set. */
  method CopyProtected(mem: array<byte>, hdr: nat, hdrLen: nat, out: nat)
    requires hdr + hdrLen <= mem.Length && out + hdrLen <= mem.Length && hdrLen >= 2
    requires hdr == out || Ccm.Disjoint(hdr, hdrLen, out, hdrLen)
    modifies mem
    ensures mem[out..out + hdrLen] == Protect(old(mem[hdr..hdr + hdrLen]))
    ensures forall k :: 0 <= k < mem.Length && !(out <= k < out + hdrLen) ==> mem[k] == old(mem[k])
  {
    Copy(mem, hdr, hdrLen, out);
    assert mem[out + 1] == mem[out..out + hdrLen][1];
    mem[out + 1] := mem[out + 1] | 0x40;
  }

  /** Header and CCMP header of the frame at `out`; the body is not touched. */
  method WriteHeaders(pn: nat, keyId: byte, mem: array<byte>, hdr: nat, hdrLen: nat, out: nat)
    requires hdr + hdrLen <= mem.Length && out + hdrLen + 8 <= mem.Length && hdrLen >= 2
    requires hdr == out || Ccm.Disjoint(hdr, hdrLen, out, hdrLen)
    modifies mem
    ensures mem[out..out + hdrLen + 8] == Protect(old(mem[hdr..hdr + hdrLen])) + CcmpHeader(pn, keyId)
    ensures forall k :: 0 <= k < mem.Length && !(out <= k < out + hdrLen + 8) ==> mem[k] == old(mem[k])
  {
    hide Protect, CcmpHeader;
    CopyProtected(mem, hdr, hdrLen, out);
    ghost var p := mem[out..out + hdrLen];
    var ch := out + hdrLen;
    PutCcmpHeader(pn, keyId, mem, ch);
    assert mem[out..out + hdrLen] == p;
    MemoryJoin(mem, out, ch, ch + 8);
  }

  method PutCcmpHeader(pn: nat, keyId: byte, mem: array<byte>, ch: nat)
    requires ch + 8 <= mem.Length
    modifies mem
    ensures mem[ch..ch + 8] == CcmpHeader(pn, keyId)
    ensures forall k :: 0 <= k < mem.Length && !(ch <= k < ch + 8) ==> mem[k] == old(mem[k])
  {
    hide Lo, Shr8;
    Put(mem, ch, [Lo(pn), Lo(Shr8(pn, 1)), 0, 0x20 | ((keyId & 3) << 6),
                  Lo(Shr8(pn, 2)), Lo(Shr8(pn, 3)), Lo(Shr8(pn, 4)), Lo(Shr8(pn, 5))]);
  }

  lemma MemoryJoin(mem: array<byte>, a: nat, b: nat, c: nat)
    requires a <= b <= c <= mem.Length
    ensures mem[a..c] == mem[a..b] + mem[b..c]
  {}

  lemma SliceHolds(mem: array<byte>, at: nat, n: nat)
    requires at + n <= mem.Length
    ensures Holds(mem, at, mem[at..at + n])
  {}

  /** `ccmp_encrypt`. The body may already lie where its encryption goes; else
      it, like the header, is clear of the frame being written. */
  method Encrypt(E: Cipher, pn: nat, keyId: byte, mem: array<byte>, hdr: nat, hdrLen: nat,
                 body: nat, len: nat, out: nat) returns (n: nat)
    requires hdr + hdrLen <= mem.Length && body + len <= mem.Length && out + hdrLen + len + 16 <= mem.Length
    requires WellSized(mem[hdr..hdr + hdrLen]) && len <= TWO_32 - 16 && hdrLen < TWO_32
    requires hdr == out || Ccm.Disjoint(hdr, hdrLen, out, hdrLen)
    requires body == out + hdrLen + 8 || Ccm.Disjoint(body, len, out, hdrLen + len + 16)
    modifies mem
    ensures n == Wrap32(hdrLen + len + 16)
    ensures mem[out..out + (hdrLen + len + 16)]
         == EncryptFrame(E, pn, keyId, old(mem[hdr..hdr + hdrLen]), old(mem[body..body + len]))
    ensures forall k :: 0 <= k < mem.Length && !(out <= k < out + (hdrLen + len + 16)) ==> mem[k] == old(mem[k])
  {
    hide Lo, EncryptFrame, Aad, NonceOf, CcmSpec.Encrypt, CcmpHeader, SealedPart, Protect, SameAuthenticated,
         WellSized, Wrap32;
    ghost var h, text := mem[hdr..hdr + hdrLen], mem[body..body + len];
    ProtectSame(h);
    LongEnough(h);
    WriteHeaders(pn, keyId, mem, hdr, hdrLen, out);
    assert mem[body..body + len] == text;
    var ct := out + hdrLen + CCMP_HDR_LEN;
    SealBody(E, pn, keyId, mem, out, hdrLen, h, body, len, text, ct);
    n := Wrap32(hdrLen + CCMP_HDR_LEN + len + CCMP_MIC_LEN);
  }

  lemma LongEnough(h: seq<byte>)
    requires WellSized(h)
    ensures |h| >= 24
  {}

  /** The rest of a frame whose two headers are at `out`. */
  method SealBody(E: Cipher, pn: nat, ghost keyId: byte, mem: array<byte>, out: nat, hdrLen: nat, ghost h: seq<byte>,
                  body: nat, len: nat, ghost text: seq<byte>, ct: nat)
    requires body + len <= mem.Length && ct + len + 8 <= mem.Length && ct == out + hdrLen + 8
    requires len <= TWO_32 - 16 && (body == ct || Ccm.Disjoint(body, len, ct, len + 8))
    requires |h| == hdrLen >= 2 && WellSized(h) && WellSized(Protect(h)) && mem[body..body + len] == text
    requires mem[out..ct] == Protect(h) + CcmpHeader(pn, keyId)
    modifies mem
    ensures mem[out..ct + len + 8] == EncryptFrame(E, pn, keyId, h, text)
    ensures forall k :: 0 <= k < mem.Length && !(ct <= k < ct + len + 8) ==> mem[k] == old(mem[k])
  {
    hide EncryptFrame, Aad, NonceOf, CcmSpec.Encrypt, WellSized, CcmpHeader, Protect;
    var aad, nonce := new byte[32], new byte[13];
    ghost var p, front := Protect(h), mem[out..ct];
    assert p == front[..hdrLen];
    PartOfMemory(mem, out, ct - out, 0, hdrLen);
    SliceHolds(mem, out, hdrLen);
    var aadLen := AadNonce(mem, out, hdrLen, p, pn, aad, nonce);
    var theNonce, theAad := nonce[..], aad[..aadLen];
    Ccm.EncryptInto(E, theNonce, theAad, mem, body, len, ct, ct + len);
    assert mem[out..ct] == front;
    SealedInPlace(E, pn, keyId, h, text, mem, out, ct, ct + len, CcmSpec.Encrypt(E, theNonce, theAad, text));
  }

  /** A frame in memory is known by its parts. */
  lemma SealedInPlace(E: Cipher, pn: nat, keyId: byte, h: seq<byte>, body: seq<byte>,
                      mem: array<byte>, at: nat, ct: nat, mic: nat, s: Sealed)
    requires WellSized(h) && WellSized(Protect(h))
    requires ct == at + |h| + 8 && mic == ct + |body| && mic + 8 <= mem.Length
    requires mem[at..ct] == Protect(h) + CcmpHeader(pn, keyId)
    requires s == CcmSpec.Encrypt(E, NonceOf(Protect(h), pn), Aad(Protect(h)), body)
    requires mem[ct..mic] == s.text && mem[mic..mic + 8] == s.mic
    ensures mem[at..mic + 8] == EncryptFrame(E, pn, keyId, h, body)
  {
    hide EncryptFrame, Aad, NonceOf, CcmSpec.Encrypt, Protect, CcmpHeader, SealedPart;
    var n := |h| + |body| + 16;
    FrameSlices(mem, at, |h|, n);
    PartOfMemory(mem, at, |h| + 8, 0, |h|);
    PartOfMemory(mem, at, |h| + 8, |h|, |h| + 8);
    FrameIs(E, pn, keyId, h, body, mem[at..at + n]);
  }

  /** A frame is known by its three parts. */
  lemma FrameIs(E: Cipher, pn: nat, keyId: byte, h: seq<byte>, body: seq<byte>, f: seq<byte>)
    requires WellSized(h) && WellSized(Protect(h)) && |f| == |h| + |body| + 16
    requires f[..|h|] == Protect(h) && f[|h|..|h| + 8] == CcmpHeader(pn, keyId)
    requires SealedPart(f, |h|) == CcmSpec.Encrypt(E, NonceOf(Protect(h), pn), Aad(Protect(h)), body)
    ensures f == EncryptFrame(E, pn, keyId, h, body)
  {
    hide Aad, NonceOf, CcmSpec.Encrypt, CcmpHeader;
    assert f == f[..|h|] + f[|h|..|h| + 8] + f[|h| + 8..|f| - 8] + f[|f| - 8..];
  }

  /** The C cast `(int)n` of a 32 bit count. */
  function AsInt(n: nat): int {
    var w := n % TWO_32;
    if w < 0x8000_0000 then w else w - TWO_32
  }

  /** `ccmp_decrypt`. It gives a packet number exactly when the frame opens, and
      then the body lies at `out`; else -1. A frame too short, or not marked as
      CCMP's, changes nothing. */
  method Decrypt(E: Cipher, mem: array<byte>, frame: nat, len: nat, hdrLen: nat, out: nat)
    returns (r: int, pn: Option<nat>)
    requires frame + len <= mem.Length && len < TWO_32 && hdrLen + 16 < TWO_32
    requires Readable(mem[frame..frame + len], hdrLen)
    requires len >= hdrLen + 16 ==>
      && out + (len - hdrLen - 16) <= mem.Length
      && (out <= frame + hdrLen + 8 || frame + len <= out)
    modifies mem
    ensures match OpenFrame(E, old(mem[frame..frame + len]), hdrLen)
      case None => r == -1 && pn == None
      case Some(o) =>
        && r == (if len - hdrLen - 16 < 0x8000_0000 then len - hdrLen - 16 else len - hdrLen - 16 - 0x1_0000_0000)
        && pn == Some(o.pn)
        && mem[out..out + (len - hdrLen - 16)] == o.body
    ensures forall k :: 0 <= k < mem.Length && mem[k] != old(mem[k]) ==>
      && len >= hdrLen + 16 && old(mem[frame + 1]) / 64 % 2 == 1 && old(mem[frame + hdrLen + 3]) / 32 % 2 == 1
      && out <= k < out + (len - hdrLen - 16)
  {
    hide Aad, NonceOf, CcmSpec.Encrypt, CcmSpec.Decrypt, Crypt, OpenFrame, SealedPart, PnIn;
    ghost var f := mem[frame..frame + len];
    if len >= hdrLen + 16 {
      MarkedBits(mem[frame + 1]);
      MarkedBits(mem[frame + hdrLen + 3]);
    }
    if len < hdrLen + CCMP_HDR_LEN + CCMP_MIC_LEN || mem[frame + 1] & 0x40 == 0 {
      OpenRefused(E, f, hdrLen);
      return -1, None;
    }
    var ch := frame + hdrLen;
    if mem[ch + 3] & 0x20 == 0 {
      OpenRefused(E, f, hdrLen);
      return -1, None;
    }
    r, pn := OpenBody(E, mem, frame, len, hdrLen, out, f);
  }

  /** The frame `f`, at `frame`, is marked as CCMP's: its packet number read, its
      AAD and nonce built, its body deciphered and checked. */
  method OpenBody(E: Cipher, mem: array<byte>, frame: nat, len: nat, hdrLen: nat, out: nat, ghost f: seq<byte>)
    returns (r: int, pn: Option<nat>)
    requires frame + len <= mem.Length && len < TWO_32 && f == mem[frame..frame + len]
    requires Readable(f, hdrLen) && LooksProtected(f, hdrLen)
    requires out + (len - hdrLen - 16) <= mem.Length && (out <= frame + hdrLen + 8 || frame + len <= out)
    modifies mem
    ensures match OpenFrame(E, f, hdrLen)
      case None => r == -1 && pn == None
      case Some(o) =>
        && r == AsInt(len - hdrLen - 16) && pn == Some(o.pn)
        && mem[out..out + (len - hdrLen - 16)] == o.body
    ensures forall k :: 0 <= k < mem.Length && !(out <= k < out + (len - hdrLen - 16)) ==> mem[k] == old(mem[k])
  {
    hide Aad, NonceOf, CcmSpec.Encrypt, CcmSpec.Decrypt, Crypt, OpenFrame, SealedPart, PnIn;
    var ch := frame + hdrLen;
    var p := ReadPn(mem, ch, f[hdrLen..]);
    ghost var h := f[..hdrLen];
    FrameSlices(mem, frame, hdrLen, len);
    var n := len - hdrLen - CCMP_HDR_LEN - CCMP_MIC_LEN;
    var ok := OpenSealed(E, mem, frame, len, hdrLen, p, out, h, SealedPart(f, hdrLen));
    OpenSteps(E, f, hdrLen);
    if !ok {
      return -1, None;
    }
    return AsInt(n), Some(p);
  }

  /** The AAD and the nonce of header `h`, and what is behind the CCMP header, `s`,
      opened under them. */
  method OpenSealed(E: Cipher, mem: array<byte>, frame: nat, len: nat, hdrLen: nat, pn: nat, out: nat,
                    ghost h: seq<byte>, ghost s: Sealed) returns (ok: bool)
    requires frame + len <= mem.Length && hdrLen + 16 <= len < TWO_32 && WellSized(h) && |h| == hdrLen
    requires h == mem[frame..frame + hdrLen]
    requires s == Sealed(mem[frame + hdrLen + 8..frame + len - 8], mem[frame + len - 8..frame + len])
    requires out + (len - hdrLen - 16) <= mem.Length && (out <= frame + hdrLen + 8 || frame + len <= out)
    modifies mem
    ensures match CcmSpec.Decrypt(E, NonceOf(h, pn), Aad(h), s)
      case None => !ok
      case Some(body) => ok && mem[out..out + (len - hdrLen - 16)] == body
    ensures forall k :: 0 <= k < mem.Length && !(out <= k < out + (len - hdrLen - 16)) ==> mem[k] == old(mem[k])
  {
    hide Aad, NonceOf, CcmSpec.Encrypt, CcmSpec.Decrypt, Crypt;
    var aad, nonce := new byte[32], new byte[13];
    var aadLen := AadNonce(mem, frame, hdrLen, h, pn, aad, nonce);
    var n, at := len - hdrLen - CCMP_HDR_LEN - CCMP_MIC_LEN, frame + hdrLen + CCMP_HDR_LEN;
    assert at + n == frame + len - 8;
    ok := Ccm.DecryptInto(E, nonce[..], aad[..aadLen], mem, at, n, out, frame + len - CCMP_MIC_LEN);
  }

  method ReadPn(mem: array<byte>, ch: nat, ghost b: seq<byte>) returns (p: nat)
    requires |b| >= 8 && Holds(mem, ch, b)
    ensures p == PnIn(b)
  {
    assert mem[ch] == b[0] && mem[ch + 1] == b[1];
    assert mem[ch + 4] == b[4] && mem[ch + 5] == b[5] && mem[ch + 6] == b[6] && mem[ch + 7] == b[7];
    SixBytes(b);
    p := mem[ch] as nat + mem[ch + 1] as nat * 0x100 + mem[ch + 4] as nat * 0x1_0000
      + mem[ch + 5] as nat * 0x100_0000 + mem[ch + 6] as nat * 0x1_0000_0000 + mem[ch + 7] as nat * 0x100_0000_0000;
  }

  lemma SixBytes(b: seq<byte>)
    requires |b| >= 8
    ensures PnIn(b) == b[0] as nat + b[1] as nat * 0x100 + b[4] as nat * 0x1_0000
      + b[5] as nat * 0x100_0000 + b[6] as nat * 0x1_0000_0000 + b[7] as nat * 0x100_0000_0000
  {
    hide FromLe;
    FromLeCons(b[0], [b[1], b[4], b[5], b[6], b[7]]);
    FromLeCons(b[1], [b[4], b[5], b[6], b[7]]);
    FromLeCons(b[4], [b[5], b[6], b[7]]);
    FromLeCons(b[5], [b[6], b[7]]);
    FromLeCons(b[6], [b[7]]);
    FromLeCons(b[7], []);
    assert b[..2] + b[4..8] == [b[0]] + [b[1], b[4], b[5], b[6], b[7]];
    assert [b[1], b[4], b[5], b[6], b[7]] == [b[1]] + [b[4], b[5], b[6], b[7]];
    assert [b[4], b[5], b[6], b[7]] == [b[4]] + [b[5], b[6], b[7]];
    assert [b[5], b[6], b[7]] == [b[5]] + [b[6], b[7]];
    assert [b[6], b[7]] == [b[6]] + [b[7]];
    assert [b[7]] == [b[7]] + [];
  }

  lemma FromLeCons(x: byte, rest: seq<byte>)
    ensures FromLe([x] + rest) == x as nat + 256 * FromLe(rest) && FromLe([]) == 0
  {
    assert ([x] + rest)[1..] == rest;
  }

  lemma OpenRefused(E: Cipher, f: seq<byte>, hdrLen: nat)
    requires Readable(f, hdrLen) && !LooksProtected(f, hdrLen)
    ensures OpenFrame(E, f, hdrLen) == None
  {}

  lemma OpenSteps(E: Cipher, f: seq<byte>, hdrLen: nat)
    requires Readable(f, hdrLen) && LooksProtected(f, hdrLen)
    ensures var h, pn := f[..hdrLen], PnIn(f[hdrLen..]);
      match CcmSpec.Decrypt(E, NonceOf(h, pn), Aad(h), SealedPart(f, hdrLen))
      case None => OpenFrame(E, f, hdrLen) == None
      case Some(body) => OpenFrame(E, f, hdrLen) == Some(Opened(body, pn))
  {}
}
