/** CCMP's header, AAD and nonce byte by byte, by arithmetic on the bytes of the
    802.11 header (IEEE Std 802.11-2016 12.5.3.2, 12.5.3.3.3 and 12.5.3.3.4). */
module CcmpLayout {
  import opened Bytes
  import opened CcmSpec
  import opened CcmpSpec
  import opened CcmpFrames

  // ----- kinds of header -----

  /** Type 2, in bits 2 and 3 of the frame control. */
  predicate Data(h: seq<byte>)
    requires |h| >= 24
  {
    h[0] / 4 % 4 == 2
  }

  /** Data to and from the DS. */
  predicate Four(h: seq<byte>)
    requires |h| >= 24
  {
    Data(h) && h[1] % 4 == 3
  }

  /** QoS data whose header reaches to its QoS control. */
  predicate Qos(h: seq<byte>)
    requires |h| >= 24
  {
    Data(h) && h[0] >= 128 && |h| >= (if Four(h) then 32 else 26)
  }

  /** The priority, or 0 for a frame that has none. */
  function Priority(h: seq<byte>): byte
    requires |h| >= 24
  {
    if Qos(h) then h[if Four(h) then 30 else 24] % 16 else 0
  }

  lemma Kinds(h: seq<byte>)
    requires |h| >= 24
    ensures IsData(h[0]) <==> Data(h)
    ensures HasFourth(h[0], h[1]) <==> Four(h)
    ensures ReadsQos(h) <==> Qos(h)
    ensures FrameType(h[0]) == 0 <==> h[0] / 4 % 4 == 0
  {
    KindBits(h[0], h[1]);
    TypeBits(h[0]);
  }

  lemma TypeBits(fc0: byte)
    ensures FrameType(fc0) == 0 <==> fc0 / 4 % 4 == 0
  {}

  lemma LowNibble(b: byte)
    ensures b & 0x0F == b % 16
  {}

  lemma TidIs(h: seq<byte>)
    requires WellSized(h)
    ensures Tid(h) == Priority(h)
  {
    Kinds(h);
    if Qos(h) {
      LowNibble(h[if Four(h) then 30 else 24]);
    }
  }

  // ----- the AAD -----

  /** The frame control with what may change taken out and Protected set, the three
      addresses, the fragment number, the fourth address and the priority. */
  lemma AadIs(h: seq<byte>)
    requires WellSized(h)
    ensures var a, f := Aad(h), if Four(h) then 6 else 0;
      && |a| == 22 + f + (if Qos(h) then 2 else 0) <= 32
      && a[0] == (if Data(h) then h[0] / 128 * 128 + h[0] % 16 else h[0])
      && a[1] == (if Data(h) && h[0] >= 128 then 0 else h[1] / 128 * 128) + 64 + h[1] % 8
      && a[2..20] == h[4..22] && a[20] == h[22] % 16 && a[21] == 0
      && (Four(h) ==> a[22..28] == h[24..30])
      && (Qos(h) ==> a[22 + f] == Priority(h) && a[23 + f] == 0)
  {
    hide IsData, HasFourth, ReadsQos, Data, Four, Qos, Priority, AadControl0, AadControl1, Tid, Aad;
    AadParts(h);
    Kinds(h);
    TidIs(h);
    ControlIs(h);
    LowNibble(h[22]);
  }

  lemma ControlIs(h: seq<byte>)
    requires |h| >= 24
    ensures AadControl0(h[0]) == if Data(h) then h[0] / 128 * 128 + h[0] % 16 else h[0]
    ensures AadControl1(h[0], h[1]) == (if Data(h) && h[0] >= 128 then 0 else h[1] / 128 * 128) + 64 + h[1] % 8
  {
    KindBits(h[0], h[1]);
    ControlBits(h[0], h[1]);
  }

  lemma ControlBits(fc0: byte, fc1: byte)
    ensures fc0 & 0x8F == fc0 / 128 * 128 + fc0 % 16
    ensures (fc1 & !0x38) | 0x40 == fc1 / 128 * 128 + 64 + fc1 % 8
    ensures ((fc1 & !0x38) | 0x40) & !0x80 == 64 + fc1 % 8
    ensures ((fc1 & !0x38) | 0x40) & 0xFF == (fc1 & !0x38) | 0x40
  {}

  // ----- the nonce -----

  /** The priority and a mark on management frames, the sender, and the packet number
      high byte first. */
  lemma NonceIs(h: seq<byte>, pn: nat)
    requires WellSized(h)
    ensures var n := NonceOf(h, pn);
      && n[0] as nat == Priority(h) as nat + (if h[0] / 4 % 4 == 0 then 16 else 0)
      && n[1..7] == h[10..16]
      && n[12] as nat == pn % 256 && n[11] as nat == pn / 256 % 256 && n[10] as nat == pn / 256 / 256 % 256
      && n[9] as nat == pn / 256 / 256 / 256 % 256 && n[8] as nat == pn / 256 / 256 / 256 / 256 % 256
      && n[7] as nat == pn / 256 / 256 / 256 / 256 / 256 % 256
  {
    hide NonceFlags, PnBytes, Priority;
    FlagsIs(h);
    PnBytesIs(pn);
    var n := NonceOf(h, pn);
    assert n[7..] == PnBytes(pn);
    assert n[7] == PnBytes(pn)[0] && n[8] == PnBytes(pn)[1] && n[9] == PnBytes(pn)[2];
    assert n[10] == PnBytes(pn)[3] && n[11] == PnBytes(pn)[4] && n[12] == PnBytes(pn)[5];
  }

  /** For a proper header the priority is there exactly when it is QoS data. */
  lemma ProperPriority(h: seq<byte>)
    requires Proper(h)
    ensures WellSized(h)
    ensures Priority(h) == if Data(h) && h[0] >= 128 then h[if Four(h) then 30 else 24] % 16 else 0
  {
    KindBits(h[0], h[1]);
  }

  lemma FlagsIs(h: seq<byte>)
    requires WellSized(h)
    ensures NonceFlags(h) as nat == Priority(h) as nat + (if h[0] / 4 % 4 == 0 then 16 else 0)
    ensures NonceFlags(h) % 16 == Priority(h) && (NonceFlags(h) >= 16 <==> h[0] / 4 % 4 == 0)
  {
    hide Tid, FrameType;
    TidIs(h);
    Kinds(h);
    PriorityFits(h);
    var t := Priority(h);
    MarkBits(t);
    if h[0] / 4 % 4 == 0 {
      Marked(t);
    }
  }

  lemma PriorityFits(h: seq<byte>)
    requires |h| >= 24
    ensures Priority(h) < 16
  {}

  lemma MarkBits(t: byte)
    requires t < 16
    ensures t | 0 == t && t | 0x10 == t + 16 && (t + 16) % 16 == t && t + 16 >= 16 && t % 16 == t
  {}

  lemma Marked(t: byte)
    requires t < 16
    ensures (t + 16) as nat == t as nat + 16
  {
    assert t as nat < 16;
  }

  lemma PnBytesIs(pn: nat)
    ensures var b := PnBytes(pn);
      && b[5] as nat == pn % 256 && b[4] as nat == pn / 256 % 256 && b[3] as nat == pn / 256 / 256 % 256
      && b[2] as nat == pn / 256 / 256 / 256 % 256 && b[1] as nat == pn / 256 / 256 / 256 / 256 % 256
      && b[0] as nat == pn / 256 / 256 / 256 / 256 / 256 % 256
  {
    hide Lo;
    ShiftsAre(pn);
    LoValue(Shr8(pn, 0));
    LoValue(Shr8(pn, 1));
    LoValue(Shr8(pn, 2));
    LoValue(Shr8(pn, 3));
    LoValue(Shr8(pn, 4));
    LoValue(Shr8(pn, 5));
  }

  lemma ShiftsAre(n: nat)
    ensures Shr8(n, 0) == n && Shr8(n, 1) == n / 256 && Shr8(n, 2) == n / 256 / 256
    ensures Shr8(n, 3) == n / 256 / 256 / 256 && Shr8(n, 4) == n / 256 / 256 / 256 / 256
    ensures Shr8(n, 5) == n / 256 / 256 / 256 / 256 / 256
  {
    var m := n / 256;
    assert Shr8(m, 0) == m && Shr8(m, 1) == m / 256;
    var k := m / 256;
    assert Shr8(k, 1) == k / 256 && Shr8(k, 2) == k / 256 / 256;
    assert Shr8(k, 3) == Shr8(k / 256, 2) == Shr8(k / 256 / 256, 1) == k / 256 / 256 / 256;
    assert Shr8(m, 2) == Shr8(k, 1) && Shr8(m, 3) == Shr8(k, 2) && Shr8(m, 4) == Shr8(k, 3);
  }

  /** Equal nonces alone are exactly equal priorities, both management frames or
      neither, one sender and one packet number in 48 bits. */
  lemma NonceExact(a: seq<byte>, m: nat, b: seq<byte>, n: nat)
    requires WellSized(a) && WellSized(b)
    ensures NonceOf(a, m) == NonceOf(b, n) <==>
      && Priority(a) == Priority(b) && (a[0] / 4 % 4 == 0 <==> b[0] / 4 % 4 == 0)
      && a[10..16] == b[10..16] && m % TWO_48 == n % TWO_48
  {
    hide NonceFlags, PnBytes, Priority;
    var x, y := NonceOf(a, m), NonceOf(b, n);
    FlagsIs(a);
    FlagsIs(b);
    SameByte(NonceFlags(a), NonceFlags(b));
    PnBytesExact(m, n);
    assert x[1..7] == a[10..16] && x[7..] == PnBytes(m);
    assert y[1..7] == b[10..16] && y[7..] == PnBytes(n);
    assert x[0] == NonceFlags(a) && y[0] == NonceFlags(b);
  }

  // ----- the frame -----

  /** Packet number bytes 0 and 1, a zero, ExtIV and the key's number, and packet
      number bytes 2 to 5. */
  lemma CcmpHeaderIs(pn: nat, keyId: byte)
    ensures var c := CcmpHeader(pn, keyId);
      && c[0] as nat == pn % 256 && c[1] as nat == pn / 256 % 256 && c[2] == 0
      && c[3] == 32 + 64 * (keyId % 4)
      && c[4] as nat == pn / 256 / 256 % 256 && c[5] as nat == pn / 256 / 256 / 256 % 256
      && c[6] as nat == pn / 256 / 256 / 256 / 256 % 256 && c[7] as nat == pn / 256 / 256 / 256 / 256 / 256 % 256
  {
    hide Lo;
    ShiftsAre(pn);
    LoValue(pn);
    LoValue(Shr8(pn, 1));
    LoValue(Shr8(pn, 2));
    LoValue(Shr8(pn, 3));
    LoValue(Shr8(pn, 4));
    LoValue(Shr8(pn, 5));
    KeyBits(keyId);
  }

  lemma KeyBits(keyId: byte)
    ensures 0x20 | ((keyId & 3) << 6) == 32 + 64 * (keyId % 4)
  {}

  /** Only the Protected bit of a header is touched. */
  lemma ProtectIs(h: seq<byte>)
    requires |h| >= 2
    ensures Protect(h) == h[1 := if h[1] / 64 % 2 == 1 then h[1] else h[1] + 64]
  {
    SetProtected(h[1]);
  }

  lemma SetProtected(b: byte)
    ensures b | 0x40 == if b / 64 % 2 == 1 then b else b + 64
  {}

  /** The header with Protected set, the eight bytes, the text and the MIC, one after
      the other: what is sealed is sealed under the header as it is sent. */
  lemma FrameIs(E: Cipher, pn: nat, keyId: byte, h: seq<byte>, body: seq<byte>)
    requires WellSized(h)
    ensures var p := h[1 := if h[1] / 64 % 2 == 1 then h[1] else h[1] + 64];
      && WellSized(p)
      && var f, n := EncryptFrame(E, pn, keyId, h, body), |h| + 8;
         && |f| == n + |body| + 8 && f[..|h|] == p && f[|h|..n] == CcmpHeader(pn, keyId)
         && f[n..n + |body|] == Crypt(E, NonceOf(p, pn), body)
         && f[n + |body|..] == Tag(E, NonceOf(p, pn), Aad(p), body)
  {
    hide CcmpHeader, NonceOf, Aad, Crypt, Tag, EncryptFrame, Protect;
    ProtectIs(h);
    FrameParts(E, pn, keyId, h, body);
  }
}
