/** The log's text: bytes appended one at a time, and when the buffer is full
    the oldest half goes, up to the end of a line. */
module LogText {
  import opened Bytes
  import opened Record

  const NL: byte := 0x0A
  const KEEP := BB_TEXT_MAX / 2
  /** The longest the text gets: one byte is left for the terminator. */
  const FULL := BB_TEXT_MAX - 1

  /** The first place at or after `from` that follows a newline, or the end. */
  function AfterLine(t: seq<byte>, from: nat): (at: nat)
    requires from <= |t|
    ensures from <= at <= |t|
    decreases |t| - from
  {
    if from == |t| then from
    else if t[from] == NL then from + 1
    else AfterLine(t, from + 1)
  }

  function DropOldestHalf(t: seq<byte>): seq<byte>
    requires |t| >= KEEP
  {
    t[AfterLine(t, |t| - KEEP)..]
  }

  function AppendByte(t: seq<byte>, c: byte): seq<byte> {
    (if |t| + 1 >= BB_TEXT_MAX then DropOldestHalf(t) else t) + [c]
  }

  function Append(t: seq<byte>, s: seq<byte>): seq<byte>
    decreases |s|
  {
    if s == [] then t else AppendByte(Append(t, s[..|s| - 1]), s[|s| - 1])
  }

  /** Appending piece by piece is appending the whole. */
  lemma {:induction false} AppendConcat(t: seq<byte>, a: seq<byte>, b: seq<byte>)
    ensures Append(t, a + b) == Append(Append(t, a), b)
    decreases |b|
  {
    if b == [] {
      assert a + b == a;
    } else {
      var n := |b| - 1;
      assert (a + b)[..|a + b| - 1] == a + b[..n];
      AppendConcat(t, a, b[..n]);
    }
  }

  // ----- dropping the oldest half -----

  predicate HasLine(t: seq<byte>, lo: nat, hi: nat)
    requires hi <= |t|
  {
    exists i :: lo <= i < hi && t[i] == NL
  }

  lemma {:induction false} AfterLineIs(t: seq<byte>, from: nat)
    requires from <= |t|
    ensures var at := AfterLine(t, from);
      && (HasLine(t, from, |t|) ==> at > from && t[at - 1] == NL && !HasLine(t, from, at - 1))
      && (!HasLine(t, from, |t|) ==> at == |t|)
    decreases |t| - from
  {
    if from < |t| && t[from] != NL {
      AfterLineIs(t, from + 1);
    }
  }

  /** What is kept starts just after a line exactly when the newest half has a
      line end in it; it is empty exactly when it has none before its last byte. */
  lemma DropExactly(t: seq<byte>)
    requires |t| >= KEEP
    ensures var d := DropOldestHalf(t);
      && |d| <= KEEP && d == t[|t| - |d|..]
      && (|t| > |d| && t[|t| - |d| - 1] == NL <==> HasLine(t, |t| - KEEP, |t|))
      && (d == [] <==> !HasLine(t, |t| - KEEP, |t| - 1))
  {
    var from := |t| - KEEP;
    AfterLineIs(t, from);
    var at := AfterLine(t, from);
    assert |t| - |DropOldestHalf(t)| == at;
    if at < |t| {
      assert t[at - 1] == NL && at - 1 < |t| - 1;
    }
  }

  /** Everything after any line end of the newest half is kept. */
  lemma DropKeepsAfter(t: seq<byte>, j: nat)
    requires |t| >= KEEP && |t| - KEEP <= j < |t| && t[j] == NL
    ensures var d := DropOldestHalf(t);
      |t| - 1 - j <= |d| <= KEEP && |d| < |t| && t[|t| - |d| - 1] == NL
  {
    var from := |t| - KEEP;
    AfterLineIs(t, from);
    assert HasLine(t, from, |t|);
    var at := AfterLine(t, from);
    assert forall i :: from <= i < at - 1 ==> t[i] != NL;
  }

  // ----- over everything ever appended -----

  predicate LineEndsSoon(h: seq<byte>, i: nat, most: nat)
    requires i + most < |h|
  {
    HasLine(h, i, i + most + 1)
  }

  /** No line, finished or not, is longer than `most` bytes. */
  ghost predicate LinesWithin(h: seq<byte>, most: nat) {
    forall i: nat :: i + most < |h| ==> LineEndsSoon(h, i, most)
  }

  ghost predicate AtLineStart(h: seq<byte>, at: nat)
    requires at <= |h|
  {
    at == 0 || h[at - 1] == 0x0A
  }

  /** The log is the end of everything ever appended, and leaves room for the
      terminator. */
  lemma {:induction false} LogIsSuffix(h: seq<byte>)
    ensures var t := Append([], h); |t| <= FULL && |t| <= |h| && t == h[|h| - |t|..]
    decreases |h|
  {
    if h != [] {
      var n := |h| - 1;
      LogIsSuffix(h[..n]);
      var t := Append([], h[..n]);
      SuffixGrows(h, t);
    }
  }

  lemma SuffixGrows(h: seq<byte>, t: seq<byte>)
    requires h != [] && |t| <= FULL && |t| < |h| && t == h[..|h| - 1][|h| - 1 - |t|..]
    ensures var u := AppendByte(t, h[|h| - 1]); |u| <= FULL && |u| <= |h| && u == h[|h| - |u|..]
  {
    var n := |h| - 1;
    if |t| + 1 >= BB_TEXT_MAX {
      DropExactly(t);
      var d := DropOldestHalf(t);
      assert d == h[n - |d|..n];
    } else {
      assert t == h[n - |t|..n];
    }
  }

  /** With lines of at most `most` bytes, the log starts at the start of a line
      and holds all of what was appended last. */
  lemma {:induction false} LogKeepsTheEnd(h: seq<byte>, most: nat)
    requires most < KEEP && LinesWithin(h, most)
    ensures var t := Append([], h);
      && |t| <= |h| && AtLineStart(h, |h| - |t|)
      && (|t| == |h| || |t| >= KEEP - most - 1)
    decreases |h|
  {
    hide AppendByte, LinesWithin;
    LogIsSuffix(h);
    if h != [] {
      var n := |h| - 1;
      var p := h[..n];
      LinesWithinPrefix(h, n, most);
      LogKeepsTheEnd(p, most);
      LogIsSuffix(p);
      KeepsOneMore(h, Append([], p), most);
    }
  }

  lemma KeepsOneMore(h: seq<byte>, t: seq<byte>, most: nat)
    requires most < KEEP && h != [] && LinesWithin(h[..|h| - 1], most) && |t| <= FULL && |t| < |h|
    requires t == h[..|h| - 1][|h| - 1 - |t|..] && AtLineStart(h[..|h| - 1], |h| - 1 - |t|)
    requires |t| == |h| - 1 || |t| >= KEEP - most - 1
    ensures var u := AppendByte(t, h[|h| - 1]);
      |u| <= |h| && AtLineStart(h, |h| - |u|) && (|u| == |h| || |u| >= KEEP - most - 1)
  {
    hide DropOldestHalf, LinesWithin;
    if |t| + 1 >= BB_TEXT_MAX {
      KeptEnough(h[..|h| - 1], t, most);
    }
  }

  lemma LinesWithinPrefix(h: seq<byte>, n: nat, most: nat)
    requires n <= |h| && LinesWithin(h, most)
    ensures LinesWithin(h[..n], most)
  {
    forall i: nat | i + most < n
      ensures LineEndsSoon(h[..n], i, most)
    {
      assert LineEndsSoon(h, i, most);
      var j :| i <= j < i + most + 1 && h[j] == NL;
      assert h[..n][j] == NL;
    }
  }

  /** One drop, of a full log that ends the history `p`. */
  lemma KeptEnough(p: seq<byte>, t: seq<byte>, most: nat)
    requires most < KEEP && LinesWithin(p, most) && |t| == FULL && FULL <= |p| && t == p[|p| - FULL..]
    ensures var d := DropOldestHalf(t); KEEP - most - 1 <= |d| <= KEEP && AtLineStart(p, |p| - |d|)
  {
    hide DropOldestHalf, HasLine;
    var off := |p| - FULL;
    var j := LineEndAfter(p, off + FULL - KEEP, most);
    assert t[j - off] == p[j];
    DropKeepsAfter(t, j - off);
    var d := DropOldestHalf(t);
    assert p[|p| - |d| - 1] == t[FULL - |d| - 1];
  }

  lemma LineEndAfter(p: seq<byte>, i: nat, most: nat) returns (j: nat)
    requires LinesWithin(p, most) && i + most < |p|
    ensures i <= j <= i + most && p[j] == NL
  {
    assert LineEndsSoon(p, i, most);
    j :| i <= j < i + most + 1 && p[j] == NL;
  }

  /** Nothing is dropped before the buffer is full. */
  lemma {:induction false} NothingLostYet(h: seq<byte>)
    requires |h| <= FULL
    ensures Append([], h) == h
    decreases |h|
  {
    if h != [] {
      NothingLostYet(h[..|h| - 1]);
    }
  }

  /** Without the bound on lines neither holds: one endless line loses all but
      its last byte. */
  lemma EndlessLineIsLost(h: seq<byte>, c: byte)
    requires |h| == FULL && !HasLine(h, 0, FULL)
    ensures Append([], h + [c]) == [c]
  {
    NothingLostYet(h);
    DropExactly(h);
    assert (h + [c])[..FULL] == h;
  }
}
