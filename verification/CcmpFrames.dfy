/** What protects a frame on its way: an encrypted frame opens to its body and
    packet number after exactly the changes that may happen to it, and no two
    frames under one key share a key stream block. */
module CcmpFrames {
  import opened Bytes
  import opened CcmSpec
  import opened CcmpSpec

  // ----- the shape of a frame -----

  lemma ProtectSame(h: seq<byte>)
    requires WellSized(h)
    ensures |Protect(h)| == |h| && WellSized(Protect(h)) && SameAuthenticated(Protect(h), h)
  {
    ProtectedBit(h[0], h[1]);
  }

  lemma FrameParts(E: Cipher, pn: nat, keyId: byte, h: seq<byte>, body: seq<byte>)
    requires WellSized(h)
    ensures WellSized(Protect(h))
    ensures var f, p := EncryptFrame(E, pn, keyId, h, body), Protect(h);
      && |f| == |h| + 16 + |body|
      && f[..|h|] == p
      && f[|h|..|h| + 8] == CcmpHeader(pn, keyId)
      && SealedPart(f, |h|) == Encrypt(E, NonceOf(p, pn), Aad(p), body)
  {
    hide NonceOf, Aad, Tag, Crypt, PnBytes;
    ProtectedBit(h[0], h[1]);
    var p := Protect(h);
    var s := Encrypt(E, NonceOf(p, pn), Aad(p), body);
    Layout(p, CcmpHeader(pn, keyId), s.text, s.mic);
  }

  lemma Layout(p: seq<byte>, ch: seq<byte>, text: seq<byte>, mic: seq<byte>)
    requires |ch| == 8 && |mic| == 8
    ensures var f := p + ch + text + mic;
      && f[..|p|] == p && f[|p|..|p| + 8] == ch
      && f[|p| + 8..|f| - 8] == text && f[|f| - 8..] == mic
  {}

  lemma SealedFromTail(a: seq<byte>, b: seq<byte>, hdrLen: nat)
    requires |a| == |b| >= hdrLen + 16 && a[hdrLen + 4..] == b[hdrLen + 4..]
    ensures SealedPart(a, hdrLen) == SealedPart(b, hdrLen)
    ensures a[hdrLen + 4..hdrLen + 8] == b[hdrLen + 4..hdrLen + 8]
  {
    TailParts(a, hdrLen);
    TailParts(b, hdrLen);
  }

  /** The parts of a frame from its fourth CCMP header byte on, within that tail. */
  lemma TailParts(a: seq<byte>, hdrLen: nat)
    requires |a| >= hdrLen + 16
    ensures var x := a[hdrLen + 4..];
      && a[hdrLen + 4..hdrLen + 8] == x[..4]
      && a[hdrLen + 8..|a| - 8] == x[4..|x| - 8]
      && a[|a| - 8..] == x[|x| - 8..]
  {
    assert a[..|a|] == a;
    SliceOfSlice(a, hdrLen + 4, |a|, 0, 4);
    SliceOfSlice(a, hdrLen + 4, |a|, 4, |a| - hdrLen - 12);
    SliceOfSlice(a, hdrLen + 4, |a|, |a| - hdrLen - 12, |a| - hdrLen - 4);
  }

  // ----- opening what was sent -----

  /** Whatever may happen to a frame on its way has happened, and it still
      gives back its body and the low 48 bits of its packet number. */
  lemma FrameSurvives(E: Cipher, pn: nat, keyId: byte, h: seq<byte>, body: seq<byte>, got: seq<byte>)
    requires WellSized(h) && InFlight(EncryptFrame(E, pn, keyId, h, body), got, |h|)
    ensures OpenFrame(E, got, |h|) == Some(Opened(body, pn % TWO_48))
  {
    hide NonceOf, Aad, Encrypt, EncryptFrame, PnBytes, CcmpHeader, Decrypt, PnIn, SealedPart;
    var sent, p, g := EncryptFrame(E, pn, keyId, h, body), Protect(h), got[..|h|];
    FrameParts(E, pn, keyId, h, body);
    SealedFromTail(sent, got, |h|);
    MarkedBits(got[1]);
    MarkedBits(got[|h| + 3]);
    var ch := got[|h|..];
    var sh := sent[|h|..|h| + 8];
    assert ch[..2] == got[|h|..|h| + 2] && sh[..2] == sent[|h|..|h| + 2];
    assert ch[4..8] == got[|h| + 4..|h| + 8] && sh[4..8] == sent[|h| + 4..|h| + 8];
    PnRoundTrip(pn, keyId, ch);
    AadNonceExact(p, pn, g, pn % TWO_48);
    DecryptEncrypt(E, NonceOf(p, pn), Aad(p), body);
  }

  /** The packet number read from a CCMP header is written back as it was. */
  lemma PnWritesBack(ch: seq<byte>, keyId: byte)
    requires |ch| >= 8
    ensures PnIn(ch) < TWO_48
    ensures CcmpHeader(PnIn(ch), keyId)[..2] == ch[..2]
    ensures CcmpHeader(PnIn(ch), keyId)[4..8] == ch[4..8]
  {
    hide CcmpHeader, FromLe, LeBytes, Pow256;
    var six, h := ch[..2] + ch[4..8], CcmpHeader(PnIn(ch), keyId);
    LeBytesFrom(six);
    Pow256Values();
    HeaderIsLe(PnIn(ch), keyId);
    assert h[..2] == (h[..2] + h[4..8])[..2] && ch[..2] == six[..2];
    assert h[4..8] == (h[..2] + h[4..8])[2..] && ch[4..8] == six[2..];
  }

  /** A frame nothing happened to is one of those. */
  lemma FrameRoundTrip(E: Cipher, pn: nat, keyId: byte, h: seq<byte>, body: seq<byte>)
    requires WellSized(h)
    ensures InFlight(EncryptFrame(E, pn, keyId, h, body), EncryptFrame(E, pn, keyId, h, body), |h|)
    ensures OpenFrame(E, EncryptFrame(E, pn, keyId, h, body), |h|) == Some(Opened(body, pn % TWO_48))
  {
    hide EncryptFrame, OpenFrame, NonceOf, Aad;
    var f := EncryptFrame(E, pn, keyId, h, body);
    FrameParts(E, pn, keyId, h, body);
    ProtectedBit(h[0], h[1]);
    assert f[1] == f[..|h|][1];
    assert f[|h| + 3] == f[|h|..|h| + 8][3];
    ExtIvSet(keyId);
    MarkedBits(f[1]);
    MarkedBits(f[|h| + 3]);
    assert SameAuthenticated(f[..|h|], f[..|h|]);
    FrameSurvives(E, pn, keyId, h, body, f);
  }

  lemma ExtIvSet(keyId: byte)
    ensures (EXT_IV | ((keyId & 3) << 6)) & EXT_IV != 0
  {}

  /** A frame that opens is one that was sent, changed no more than it may be. */
  lemma OpenedWasSent(E: Cipher, got: seq<byte>, hdrLen: nat, body: seq<byte>, pn: nat, keyId: byte)
    requires Readable(got, hdrLen) && OpenFrame(E, got, hdrLen) == Some(Opened(body, pn))
    ensures |got| == hdrLen + 16 + |body| && WellSized(got[..hdrLen]) && pn < TWO_48
    ensures InFlight(EncryptFrame(E, pn, keyId, got[..hdrLen], body), got, hdrLen)
  {
    hide NonceOf, Aad, Encrypt, EncryptFrame, PnBytes, CcmpHeader, Decrypt, PnIn;
    var h, ch := got[..hdrLen], got[hdrLen..];
    AlreadyProtected(h);
    MarkedBits(got[1]);
    MarkedBits(got[hdrLen + 3]);
    FrameParts(E, pn, keyId, h, body);
    PnWritesBack(ch, keyId);
    var sent := EncryptFrame(E, pn, keyId, h, body);
    DecryptExact(E, NonceOf(h, pn), Aad(h), SealedPart(got, hdrLen), body);
    assert SealedPart(sent, hdrLen) == SealedPart(got, hdrLen);
    assert |sent| == |got|;
    SameTail(sent, got, hdrLen, CcmpHeader(pn, keyId));
    assert SameAuthenticated(h, h);
  }

  lemma AlreadyProtected(h: seq<byte>)
    requires |h| >= 2 && h[1] & PROTECTED != 0
    ensures Protect(h) == h
  {
    SetBit(h[1]);
  }

  lemma SetBit(b: byte)
    requires b & PROTECTED != 0
    ensures b | PROTECTED == b
  {}

  lemma SameTail(sent: seq<byte>, got: seq<byte>, hdrLen: nat, ch: seq<byte>)
    requires |sent| == |got| >= hdrLen + 16 && |ch| == 8
    requires sent[hdrLen..hdrLen + 8] == ch && ch[..2] == got[hdrLen..][..2] && ch[4..8] == got[hdrLen..][4..8]
    requires SealedPart(sent, hdrLen) == SealedPart(got, hdrLen)
    ensures got[hdrLen..hdrLen + 2] == sent[hdrLen..hdrLen + 2]
    ensures got[hdrLen + 4..] == sent[hdrLen + 4..]
  {
    var n := |sent|;
    assert got[hdrLen..hdrLen + 2] == got[hdrLen..][..2] && sent[hdrLen..hdrLen + 2] == sent[hdrLen..hdrLen + 8][..2];
    assert got[hdrLen + 4..hdrLen + 8] == got[hdrLen..][4..8];
    assert sent[hdrLen + 4..hdrLen + 8] == sent[hdrLen..hdrLen + 8][4..8];
    assert got[hdrLen + 4..] == got[hdrLen + 4..hdrLen + 8] + got[hdrLen + 8..n - 8] + got[n - 8..];
    assert sent[hdrLen + 4..] == sent[hdrLen + 4..hdrLen + 8] + sent[hdrLen + 8..n - 8] + sent[n - 8..];
  }

  ghost predicate Carries(E: Cipher, got: seq<byte>, hdrLen: nat, body: seq<byte>, pn: nat, keyId: byte, h: seq<byte>) {
    WellSized(h) && |h| == hdrLen && InFlight(EncryptFrame(E, pn, keyId, h, body), got, hdrLen)
  }

  /** Opening gives a body and a packet number exactly when the frame is the
      encryption of that body, under that number and some header, changed only
      as frames may be: no more is accepted, and nothing else is given back. */
  lemma OpenExactly(E: Cipher, got: seq<byte>, hdrLen: nat, body: seq<byte>, pn: nat)
    requires Readable(got, hdrLen) && pn < TWO_48
    ensures OpenFrame(E, got, hdrLen) == Some(Opened(body, pn))
       <==> (exists keyId, h :: Carries(E, got, hdrLen, body, pn, keyId, h))
  {
    hide OpenFrame, Carries;
    if OpenFrame(E, got, hdrLen) == Some(Opened(body, pn)) {
      OpenedIsCarried(E, got, hdrLen, body, pn);
    }
    forall keyId, h | Carries(E, got, hdrLen, body, pn, keyId, h)
      ensures OpenFrame(E, got, hdrLen) == Some(Opened(body, pn))
    {
      CarriedOpens(E, got, hdrLen, body, pn, keyId, h);
    }
  }

  lemma OpenedIsCarried(E: Cipher, got: seq<byte>, hdrLen: nat, body: seq<byte>, pn: nat)
    requires Readable(got, hdrLen) && OpenFrame(E, got, hdrLen) == Some(Opened(body, pn))
    ensures |got| >= hdrLen && Carries(E, got, hdrLen, body, pn, 0, got[..hdrLen])
  {
    hide EncryptFrame, InFlight, OpenFrame;
    OpenedWasSent(E, got, hdrLen, body, pn, 0);
  }

  lemma CarriedOpens(E: Cipher, got: seq<byte>, hdrLen: nat, body: seq<byte>, pn: nat, keyId: byte, h: seq<byte>)
    requires Readable(got, hdrLen) && pn < TWO_48 && Carries(E, got, hdrLen, body, pn, keyId, h)
    ensures OpenFrame(E, got, hdrLen) == Some(Opened(body, pn))
  {
    hide EncryptFrame, InFlight, OpenFrame;
    FrameSurvives(E, pn, keyId, h, body, got);
  }

  // ----- a whole run of frames under one key -----

  datatype Sending = Sending(header: seq<byte>, pn: nat, body: seq<byte>)

  function RunNonce(s: Sending): Nonce
    requires WellSized(s.header)
  {
    ProtectSame(s.header);
    NonceOf(Protect(s.header), s.pn)
  }

  /** Counter block 0 masks the MIC, blocks 1 on the body. */
  function LastCounter(s: Sending): nat {
    (|s.body| + 15) / 16
  }

  /** Frames that can be sent: a whole header, and a body CCM's two byte length can say. */
  ghost predicate Sendable(run: seq<Sending>) {
    forall i :: 0 <= i < |run| ==> WellSized(run[i].header) && |run[i].body| < 0x1_0000
  }

  ghost predicate CountersDistinct(run: seq<Sending>)
    requires Sendable(run)
  {
    forall i, c: nat, j, d: nat
      | 0 <= i < |run| && 0 <= j < |run| && c <= LastCounter(run[i]) && d <= LastCounter(run[j])
        && CounterBlock(RunNonce(run[i]), c) == CounterBlock(RunNonce(run[j]), d)
      :: i == j && c == d
  }

  ghost predicate PnsDistinct(run: seq<Sending>) {
    forall i, j | 0 <= i < j < |run| :: run[i].pn % TWO_48 != run[j].pn % TWO_48
  }

  /** Packet numbers that differ keep every counter block of the run apart,
      within one frame and across frames. */
  lemma CountersNeverRepeat(run: seq<Sending>)
    requires Sendable(run) && PnsDistinct(run)
    ensures CountersDistinct(run)
  {
    hide CounterBlock, RunNonce;
    forall i, c: nat, j, d: nat
      | 0 <= i < |run| && 0 <= j < |run| && c <= LastCounter(run[i]) && d <= LastCounter(run[j])
        && CounterBlock(RunNonce(run[i]), c) == CounterBlock(RunNonce(run[j]), d)
      ensures i == j && c == d
    {
      CounterBlockExact(RunNonce(run[i]), c, RunNonce(run[j]), d);
      RunNonceSays(run[i], run[j]);
    }
  }

  lemma RunNonceSays(s: Sending, t: Sending)
    requires WellSized(s.header) && WellSized(t.header)
    ensures RunNonce(s) == RunNonce(t) ==> s.pn % TWO_48 == t.pn % TWO_48
    ensures SameAuthenticated(s.header, t.header) && s.pn % TWO_48 == t.pn % TWO_48 ==> RunNonce(s) == RunNonce(t)
  {
    hide NonceOf, SameAuthenticated;
    ProtectSame(s.header);
    ProtectSame(t.header);
    NonceSays(Protect(s.header), s.pn, Protect(t.header), t.pn);
    NonceSays(Protect(s.header), s.pn, s.header, s.pn);
    NonceSays(Protect(t.header), t.pn, t.header, t.pn);
    NonceSays(s.header, s.pn, t.header, t.pn);
  }

  /** For one sender's frames of one kind, it takes packet numbers distinct in
      their low 48 bits, no less: the number is sent in six bytes. */
  lemma CountersDistinctExactly(run: seq<Sending>)
    requires Sendable(run)
    requires forall i, j | 0 <= i < |run| && 0 <= j < |run| :: SameAuthenticated(run[i].header, run[j].header)
    ensures CountersDistinct(run) <==> PnsDistinct(run)
  {
    hide CounterBlock, RunNonce, SameAuthenticated;
    if PnsDistinct(run) {
      CountersNeverRepeat(run);
    } else {
      var i, j :| 0 <= i < j < |run| && run[i].pn % TWO_48 == run[j].pn % TWO_48;
      RunNonceSays(run[i], run[j]);
      assert CounterBlock(RunNonce(run[i]), 0) == CounterBlock(RunNonce(run[j]), 0);
    }
  }

  /** No counter block of any frame is what the cipher sees first in any MAC. */
  lemma CountersAreNoMacStart(s: Sending, c: nat, t: Sending)
    requires WellSized(s.header) && WellSized(t.header)
    ensures var aad := Aad(Protect(t.header));
      CounterBlock(RunNonce(s), c) != MacBlocks(RunNonce(t), aad, t.body)[0]
  {
    ProtectSame(t.header);
    var aad := Aad(Protect(t.header));
    CounterBlockIsNoMacBlock(RunNonce(s), c, RunNonce(t), |aad|, |t.body|);
  }
}
