/** The 802.11 header as CCMP protects it: what of it is authenticated, what may
    change on the way, and what an encrypted frame is (IEEE Std 802.11-2016
    12.5.3.3). A header is its own bytes, `frame[..hdrLen]`. */
module CcmpSpec {
  import opened Bytes
  import opened CcmSpec

  // ----- reading a header -----

  const PROTECTED: byte := 0x40
  const EXT_IV: byte := 0x20

  function FrameType(fc0: byte): byte {
    (fc0 >> 2) & 3
  }

  predicate IsData(fc0: byte) {
    FrameType(fc0) == 2
  }

  predicate IsQos(fc0: byte) {
    IsData(fc0) && fc0 & 0x80 != 0
  }

  predicate HasFourth(fc0: byte, fc1: byte) {
    IsData(fc0) && fc1 & 3 == 3
  }

  /** The header's length, or 0 for something too short to hold one. */
  function HdrLen(frame: seq<byte>): nat {
    if |frame| < 24 then 0
    else
      var n := 24 + (if HasFourth(frame[0], frame[1]) then 6 else 0) + (if IsQos(frame[0]) then 2 else 0);
      if n <= |frame| then n else 0
  }

  /** What building the AAD and the nonce reads lies inside the header. */
  predicate WellSized(h: seq<byte>) {
    |h| >= 24 && (HasFourth(h[0], h[1]) ==> |h| >= 30)
  }

  /** A header of the length clause 9.2.4 of IEEE Std 802.11-2016 gives its kind: 24
      bytes, and for data (type 2) six more for a fourth address when both DS bits
      are set and two more for the QoS control when the subtype's top bit is. */
  predicate Proper(h: seq<byte>) {
    && |h| >= 24
    && var data := h[0] / 4 % 4 == 2;
       |h| == 24 + (if data && h[1] % 4 == 3 then 6 else 0) + (if data && h[0] >= 128 then 2 else 0)
  }

  lemma KindBits(fc0: byte, fc1: byte)
    ensures IsData(fc0) <==> fc0 / 4 % 4 == 2
    ensures HasFourth(fc0, fc1) <==> IsData(fc0) && fc1 % 4 == 3
    ensures IsQos(fc0) <==> IsData(fc0) && fc0 >= 128
  {}

  function QosAt(h: seq<byte>): nat
    requires |h| >= 2
  {
    if HasFourth(h[0], h[1]) then 30 else 24
  }

  predicate ReadsQos(h: seq<byte>)
    requires |h| >= 2
  {
    IsQos(h[0]) && |h| >= QosAt(h) + 2
  }

  function Tid(h: seq<byte>): byte
    requires WellSized(h)
  {
    if ReadsQos(h) then h[QosAt(h)] & 0x0F else 0
  }

  // ----- what is authenticated -----

  function AadControl0(fc0: byte): byte {
    if IsData(fc0) then fc0 & 0x8F else fc0
  }

  function AadControl1(fc0: byte, fc1: byte): byte {
    ((fc1 & !0x38) | PROTECTED) & (if IsQos(fc0) then !0x80 else 0xFF)
  }

  function Aad(h: seq<byte>): seq<byte>
    requires WellSized(h)
  {
    [AadControl0(h[0]), AadControl1(h[0], h[1])] + h[4..22] + [h[22] & 0x0F, 0]
    + (if HasFourth(h[0], h[1]) then h[24..30] else [])
    + (if ReadsQos(h) then [Tid(h), 0] else [])
  }

  /** The packet number's six bytes, high one first. */
  function PnBytes(pn: nat): (b: seq<byte>)
    ensures |b| == 6
  {
    seq(6, i requires 0 <= i < 6 => Lo(Shr8(pn, 5 - i)))
  }

  /** The priority, and a mark on management frames. */
  function NonceFlags(h: seq<byte>): byte
    requires WellSized(h)
  {
    Tid(h) | (if FrameType(h[0]) == 0 then 0x10 else 0)
  }

  function NonceOf(h: seq<byte>, pn: nat): Nonce
    requires WellSized(h)
  {
    [NonceFlags(h)] + h[10..16] + PnBytes(pn)
  }

  // ----- the frame -----

  /** The eight bytes between the header and the body. */
  function CcmpHeader(pn: nat, keyId: byte): (b: seq<byte>)
    ensures |b| == 8
  {
    [Lo(pn), Lo(Shr8(pn, 1)), 0, EXT_IV | ((keyId & 3) << 6),
     Lo(Shr8(pn, 2)), Lo(Shr8(pn, 3)), Lo(Shr8(pn, 4)), Lo(Shr8(pn, 5))]
  }

  function PnIn(ch: seq<byte>): nat
    requires |ch| >= 8
  {
    FromLe(ch[..2] + ch[4..8])
  }

  function Protect(h: seq<byte>): (p: seq<byte>)
    requires |h| >= 2
    ensures |p| == |h|
  {
    h[1 := h[1] | PROTECTED]
  }

  lemma ProtectedBit(fc0: byte, fc1: byte)
    ensures HasFourth(fc0, fc1 | PROTECTED) <==> HasFourth(fc0, fc1)
    ensures (fc1 | PROTECTED) & PROTECTED != 0
    ensures SameControl(fc0, fc1, fc0, fc1 | PROTECTED)
  {}

  function EncryptFrame(E: Cipher, pn: nat, keyId: byte, h: seq<byte>, body: seq<byte>): (f: seq<byte>)
    requires WellSized(h)
    ensures |f| == |h| + 16 + |body| && f[..|h|] == Protect(h) && WellSized(Protect(h))
  {
    hide NonceOf, Aad, CcmpHeader, Tag, HasFourth;
    var p := Protect(h);
    ProtectedBit(h[0], h[1]);
    var s := Encrypt(E, NonceOf(p, pn), Aad(p), body);
    p + CcmpHeader(pn, keyId) + s.text + s.mic
  }

  datatype Opened = Opened(body: seq<byte>, pn: nat)

  /** A frame of this size can be one, and says it is protected by CCMP. */
  predicate LooksProtected(frame: seq<byte>, hdrLen: nat)
    requires hdrLen >= 2
  {
    |frame| >= hdrLen + 16 && frame[1] & PROTECTED != 0 && frame[hdrLen + 3] & EXT_IV != 0
  }

  /** The sizes under which opening a frame reads only the frame. */
  predicate Readable(frame: seq<byte>, hdrLen: nat) {
    hdrLen >= 24 && (|frame| >= hdrLen + 16 ==> WellSized(frame[..hdrLen]))
  }

  function SealedPart(frame: seq<byte>, hdrLen: nat): Sealed
    requires |frame| >= hdrLen + 16
  {
    Sealed(frame[hdrLen + 8..|frame| - 8], frame[|frame| - 8..])
  }

  ghost function OpenFrame(E: Cipher, frame: seq<byte>, hdrLen: nat): Option<Opened>
    requires Readable(frame, hdrLen)
  {
    if !LooksProtected(frame, hdrLen) then None
    else
      var h, pn := frame[..hdrLen], PnIn(frame[hdrLen..]);
      match Decrypt(E, NonceOf(h, pn), Aad(h), SealedPart(frame, hdrLen))
      case None => None
      case Some(body) => Some(Opened(body, pn))
  }

  // ----- what may change on the way -----

  predicate SameControl(a0: byte, a1: byte, b0: byte, b1: byte) {
    && (a0 ^ b0) & (if IsData(a0) then 0x8F else 0xFF) == 0
    && (a1 ^ b1) & (if IsQos(a0) then 0x07 else 0x87) == 0
  }

  /** Two headers alike in everything CCMP authenticates. Of the frame control that
      leaves out bits 11, 12 and 13, which the sender may set again on every try,
      bit 14, which encryption sets, and in data bits 4 to 6, and bit 15 where there
      is a QoS control; of the sequence and QoS controls it takes four bits each. */
  predicate SameAuthenticated(a: seq<byte>, b: seq<byte>)
    requires WellSized(a) && WellSized(b)
  {
    && SameControl(a[0], a[1], b[0], b[1])
    && a[4..22] == b[4..22]
    && (a[22] ^ b[22]) & 0x0F == 0
    && (HasFourth(a[0], a[1]) ==> a[24..30] == b[24..30])
    && (ReadsQos(a) <==> ReadsQos(b))
    && (ReadsQos(a) ==> (a[QosAt(a)] ^ b[QosAt(a)]) & 0x0F == 0)
  }

  /** A frame that may have left as `sent` and arrived as `got`: nothing changed
      but header bits that may, the CCMP header's reserved byte, and the bits
      beside ExtIV. */
  predicate InFlight(sent: seq<byte>, got: seq<byte>, hdrLen: nat)
    requires |sent| >= hdrLen + 16 && WellSized(sent[..hdrLen])
  {
    && |got| == |sent| && WellSized(got[..hdrLen])
    && SameAuthenticated(sent[..hdrLen], got[..hdrLen])
    && got[1] / 64 % 2 == 1 && got[hdrLen + 3] / 32 % 2 == 1
    && got[hdrLen..hdrLen + 2] == sent[hdrLen..hdrLen + 2]
    && got[hdrLen + 4..] == sent[hdrLen + 4..]
  }

  lemma MarkedBits(b: byte)
    ensures b & PROTECTED != 0 <==> b / 64 % 2 == 1
    ensures b & EXT_IV != 0 <==> b / 32 % 2 == 1
  {}

  // ----- the AAD and the nonce say exactly that -----

  lemma ControlExact(a0: byte, a1: byte, b0: byte, b1: byte)
    ensures AadControl0(a0) == AadControl0(b0) && AadControl1(a0, a1) == AadControl1(b0, b1)
       <==> SameControl(a0, a1, b0, b1)
  {}

  lemma ControlSays(a0: byte, a1: byte, b0: byte, b1: byte)
    requires AadControl0(a0) == AadControl0(b0) && AadControl1(a0, a1) == AadControl1(b0, b1)
    ensures FrameType(a0) == FrameType(b0) && (IsQos(a0) <==> IsQos(b0))
    ensures (HasFourth(a0, a1) <==> HasFourth(b0, b1))
    ensures a1 & 3 == b1 & 3
  {}

  lemma NibbleExact(a: byte, b: byte)
    ensures a & 0x0F == b & 0x0F <==> (a ^ b) & 0x0F == 0
  {}

  /** Where the parts of the AAD lie. It fits the caller's 32 bytes. */
  lemma AadParts(h: seq<byte>)
    requires WellSized(h)
    ensures var a, f := Aad(h), if HasFourth(h[0], h[1]) then 6 else 0;
      && |a| == 22 + f + (if ReadsQos(h) then 2 else 0) <= 30
      && a[0] == AadControl0(h[0]) && a[1] == AadControl1(h[0], h[1])
      && a[2..20] == h[4..22] && a[20] == h[22] & 0x0F && a[21] == 0
      && (HasFourth(h[0], h[1]) ==> a[22..28] == h[24..30])
      && (ReadsQos(h) ==> a[22 + f] == Tid(h) && a[23 + f] == 0)
  {}

  /** Equal AADs are exactly equal authenticated parts. */
  lemma AadExact(a: seq<byte>, b: seq<byte>)
    requires WellSized(a) && WellSized(b)
    ensures Aad(a) == Aad(b) <==> SameAuthenticated(a, b)
  {
    AadParts(a);
    AadParts(b);
    ControlExact(a[0], a[1], b[0], b[1]);
    NibbleExact(a[22], b[22]);
    if SameAuthenticated(a, b) || Aad(a) == Aad(b) {
      ControlSays(a[0], a[1], b[0], b[1]);
    }
    if ReadsQos(a) && ReadsQos(b) && QosAt(a) == QosAt(b) {
      NibbleExact(a[QosAt(a)], b[QosAt(b)]);
    }
  }

  // ----- the packet number -----

  lemma HeaderIsLe(pn: nat, keyId: byte)
    ensures CcmpHeader(pn, keyId)[..2] + CcmpHeader(pn, keyId)[4..8] == LeBytes(pn, 6)
  {
    hide Lo, Shr8, LeBytes;
    LeBytesAt(pn, 6, 0);
    LeBytesAt(pn, 6, 1);
    LeBytesAt(pn, 6, 2);
    LeBytesAt(pn, 6, 3);
    LeBytesAt(pn, 6, 4);
    LeBytesAt(pn, 6, 5);
    NoShift(pn);
  }

  lemma NoShift(n: nat)
    ensures Shr8(n, 0) == n
  {}

  /** The CCMP header carries the packet number's low 48 bits. */
  lemma PnRoundTrip(pn: nat, keyId: byte, ch: seq<byte>)
    requires |ch| >= 8 && ch[..2] == CcmpHeader(pn, keyId)[..2] && ch[4..8] == CcmpHeader(pn, keyId)[4..8]
    ensures PnIn(ch) == pn % TWO_48
  {
    hide CcmpHeader, FromLe, Pow256;
    HeaderIsLe(pn, keyId);
    FromLeBytes(pn, 6);
    Pow256Values();
  }

  /** So does the nonce, and it says no less. */
  lemma PnBytesExact(m: nat, n: nat)
    ensures PnBytes(m) == PnBytes(n) <==> m % TWO_48 == n % TWO_48
  {
    hide Lo, Shr8, LeBytes, Pow256;
    Pow256Values();
    LeBytesExact(m, n, 6);
    PnBytesBackward(m);
    PnBytesBackward(n);
    Backward(PnBytes(m), LeBytes(m, 6), PnBytes(n), LeBytes(n, 6));
  }

  lemma PnBytesBackward(pn: nat)
    ensures forall i :: 0 <= i < 6 ==> PnBytes(pn)[i] == LeBytes(pn, 6)[5 - i]
  {
    hide Lo, Shr8, LeBytes;
    forall i | 0 <= i < 6
      ensures PnBytes(pn)[i] == LeBytes(pn, 6)[5 - i]
    {
      LeBytesAt(pn, 6, 5 - i);
    }
  }

  /** Sequences are equal when they are equal backward. */
  lemma Backward(a: seq<byte>, x: seq<byte>, b: seq<byte>, y: seq<byte>)
    requires |a| == |x| == |b| == |y| == 6
    requires (forall i :: 0 <= i < 6 ==> a[i] == x[5 - i]) && (forall i :: 0 <= i < 6 ==> b[i] == y[5 - i])
    ensures a == b <==> x == y
  {
    assert x[0] == a[5] && x[1] == a[4] && x[2] == a[3] && x[3] == a[2] && x[4] == a[1] && x[5] == a[0];
    assert y[0] == b[5] && y[1] == b[4] && y[2] == b[3] && y[3] == b[2] && y[4] == b[1] && y[5] == b[0];
    assert x == [x[0], x[1], x[2], x[3], x[4], x[5]] && y == [y[0], y[1], y[2], y[3], y[4], y[5]];
  }

  // ----- the nonce -----

  /** Equal AADs leave the nonce to say one more thing, the packet number. */
  lemma NonceSays(a: seq<byte>, m: nat, b: seq<byte>, n: nat)
    requires WellSized(a) && WellSized(b)
    ensures NonceOf(a, m) == NonceOf(b, n) ==> m % TWO_48 == n % TWO_48 && a[10..16] == b[10..16]
    ensures SameAuthenticated(a, b) && m % TWO_48 == n % TWO_48 ==> NonceOf(a, m) == NonceOf(b, n)
  {
    hide PnBytes;
    var x, y := NonceOf(a, m), NonceOf(b, n);
    assert x[1..7] == a[10..16] && x[7..] == PnBytes(m);
    assert y[1..7] == b[10..16] && y[7..] == PnBytes(n);
    PnBytesExact(m, n);
    if SameAuthenticated(a, b) {
      ControlExact(a[0], a[1], b[0], b[1]);
      ControlSays(a[0], a[1], b[0], b[1]);
      SliceOfSlice(a, 4, 22, 6, 12);
      SliceOfSlice(b, 4, 22, 6, 12);
      if ReadsQos(a) {
        NibbleExact(a[QosAt(a)], b[QosAt(b)]);
      }
    }
  }

  /** Equal AAD and equal nonce are exactly an equal authenticated part and an
      equal 48 bit packet number. */
  lemma AadNonceExact(a: seq<byte>, m: nat, b: seq<byte>, n: nat)
    requires WellSized(a) && WellSized(b)
    ensures Aad(a) == Aad(b) && NonceOf(a, m) == NonceOf(b, n)
       <==> (SameAuthenticated(a, b) && m % TWO_48 == n % TWO_48)
  {
    AadExact(a, b);
    NonceSays(a, m, b, n);
  }

  /** A proper header's QoS control is always read. */
  lemma ProperReads(h: seq<byte>)
    requires Proper(h)
    ensures WellSized(h) && (ReadsQos(h) <==> IsQos(h[0]))
  {}

  lemma Under48(m: nat, n: nat)
    requires m < TWO_48 && n < TWO_48 && m % TWO_48 == n % TWO_48
    ensures m == n
  {}

  /** In the standard's words: two proper headers with one AAD and one nonce are
      of one length, type and direction, both QoS or neither, with the same
      addresses, fragment number and priority, under one packet number. */
  lemma HeaderBound(a: seq<byte>, m: nat, b: seq<byte>, n: nat)
    requires Proper(a) && Proper(b) && m < TWO_48 && n < TWO_48
    requires Aad(a) == Aad(b) && NonceOf(a, m) == NonceOf(b, n)
    ensures |a| == |b| && m == n
    ensures FrameType(a[0]) == FrameType(b[0]) && a[1] & 3 == b[1] & 3 && (IsQos(a[0]) <==> IsQos(b[0]))
    ensures a[4..22] == b[4..22] && (HasFourth(a[0], a[1]) ==> |b| >= 30 && a[24..30] == b[24..30])
    ensures a[22] & 0x0F == b[22] & 0x0F
    ensures IsQos(a[0]) ==> a[QosAt(a)] & 0x0F == b[QosAt(b)] & 0x0F
  {
    hide NonceOf, Aad;
    AadNonceExact(a, m, b, n);
    Under48(m, n);
    ProperReads(a);
    ProperReads(b);
    ControlExact(a[0], a[1], b[0], b[1]);
    ControlSays(a[0], a[1], b[0], b[1]);
    NibbleExact(a[22], b[22]);
    if IsQos(a[0]) {
      NibbleExact(a[QosAt(a)], b[QosAt(b)]);
    }
  }
}
