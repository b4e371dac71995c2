/** Packets of the remote serial protocol as texts: what a frame is, where in
    an input the reader's first event happens, and what it answers on the way. */
module Framing {
  import opened Machine
  import opened Texts
  import opened Hex

  const DOLLAR: byte := 0x24
  const HASH: byte := 0x23
  const PLUS: byte := 0x2B
  const MINUS: byte := 0x2D

  /** Size of the receive buffer, and of the transmit buffer. */
  const BUFFER_SIZE := 128

  /** Sum of the bytes, modulo 256. */
  function Sum(p: seq<byte>): byte {
    if p == [] then 0 else Sum(p[..|p| - 1]) + p[|p| - 1]
  }

  function Frame(p: seq<byte>): (f: seq<byte>)
    ensures |f| == |p| + 4
  {
    [DOLLAR] + p + [HASH, HighDigit(Sum(p)), LowDigit(Sum(p))]
  }

  lemma SumGrows(p: seq<byte>, n: nat)
    requires n < |p|
    ensures Sum(p[..n + 1]) == Sum(p[..n]) + p[n]
  {
    assert p[..n + 1][..n] == p[..n];
  }

  // ---- reading, position by position ----

  /** The last `$` among the first `k` bytes, or -1. */
  function LastDollar(s: seq<byte>, k: nat): (j: int)
    requires k <= |s|
    ensures -1 <= j < k
  {
    if k == 0 then -1 else if s[k - 1] == DOLLAR then k - 1 else LastDollar(s, k - 1)
  }

  /** The first `#` from `f` on among the first `k` bytes, or `k`. */
  function FirstHash(s: seq<byte>, f: nat, k: nat): (h: nat)
    requires f <= k <= |s|
    ensures f <= h <= k
  {
    if f == k then k
    else
      var h := FirstHash(s, f, k - 1);
      if h < k - 1 then h else if s[k - 1] == HASH then k - 1 else k
  }

  /** The `#` that ends the payload begun by the last `$`. */
  function HashAfter(s: seq<byte>, k: nat): nat
    requires k <= |s| && LastDollar(s, k) >= 0
  {
    FirstHash(s, LastDollar(s, k) + 1, k)
  }

  /** The byte before position `k` completes a frame. */
  predicate Completes(s: seq<byte>, k: nat)
    requires k <= |s|
  {
    LastDollar(s, k) >= 0 && HashAfter(s, k) + 3 == k
  }

  function Payload(s: seq<byte>, k: nat): seq<byte>
    requires k <= |s| && LastDollar(s, k) >= 0
  {
    s[LastDollar(s, k) + 1..HashAfter(s, k)]
  }

  predicate ChecksumOk(s: seq<byte>, k: nat)
    requires k <= |s| && Completes(s, k)
  {
    Sum(Payload(s, k)) == HexByte(s[k - 2], s[k - 1])
  }

  predicate Accepts(s: seq<byte>, k: nat)
    requires k <= |s|
  {
    Completes(s, k) && ChecksumOk(s, k)
  }

  /** 127 payload bytes have come and no end. */
  predicate Overflows(s: seq<byte>, k: nat)
    requires k <= |s|
  {
    LastDollar(s, k) >= 0 && HashAfter(s, k) == k && |Payload(s, k)| == BUFFER_SIZE - 1
  }

  datatype Outcome =
    | Packet(payload: seq<byte>, used: nat)
    | Overflow(used: nat)
    | Waiting

  /** The first packet or overflow at position `k` or later. */
  function FirstOutcome(s: seq<byte>, k: nat): Outcome
    requires k <= |s|
    decreases |s| - k
  {
    if Accepts(s, k) then Packet(Payload(s, k), k)
    else if Overflows(s, k) then Overflow(k)
    else if k == |s| then Waiting
    else FirstOutcome(s, k + 1)
  }

  /** The reader stores byte `k` of the input at this offset, if it stores it. */
  function StoreAt(s: seq<byte>, k: nat): (offset: int)
    requires k < |s|
    ensures offset >= -1
  {
    if s[k] != DOLLAR && s[k] != HASH && LastDollar(s, k) >= 0 && HashAfter(s, k) == k then k - LastDollar(s, k) - 1
    else -1
  }

  type Buffer = b: seq<byte> | |b| == BUFFER_SIZE witness seq(BUFFER_SIZE, _ => 0)

  /** The receive buffer after the first `k` bytes of the input. */
  function Filled(b: Buffer, s: seq<byte>, k: nat): Buffer
    requires k <= |s|
  {
    if k == 0 then b
    else
      var b', at := Filled(b, s, k - 1), StoreAt(s, k - 1);
      if 0 <= at < BUFFER_SIZE then b'[at := s[k - 1]] else b'
  }

  /** And when the reader is done. */
  function Received(b: Buffer, s: seq<byte>, r: Outcome): Buffer {
    match r
    case Packet(p, used) =>
      if used <= |s| && |p| < BUFFER_SIZE then Filled(b, s, used)[|p| := 0] else b
    case Overflow(used) => if used <= |s| then Filled(b, s, used) else b
    case Waiting => Filled(b, s, |s|)
  }

  function Refusal(s: seq<byte>, k: nat): seq<byte>
    requires k <= |s|
  {
    if Completes(s, k) && !ChecksumOk(s, k) then [MINUS] else []
  }

  lemma {:induction false} OutcomeTakesInput(s: seq<byte>, k: nat)
    requires k <= |s|
    ensures var r := FirstOutcome(s, k); r.Waiting? || (0 < r.used && k <= r.used <= |s|)
    decreases |s| - k
  {
    if !Accepts(s, k) && !Overflows(s, k) && k < |s| {
      OutcomeTakesInput(s, k + 1);
    }
  }

  /** One `-` for every frame with a wrong checksum among the first `k` bytes. */
  function Refusals(s: seq<byte>, k: nat): seq<byte>
    requires k <= |s|
  {
    if k == 0 then []
    else Refusals(s, k - 1) + Refusal(s, k)
  }

  // ---- the same, by the shape of the text ----

  predicate Free(p: seq<byte>, c: byte) {
    forall i :: 0 <= i < |p| ==> p[i] != c
  }

  /** `s` ends in a frame around `p` with the digits `c0`, `c1`. */
  predicate EndsInFrame(s: seq<byte>, junk: seq<byte>, p: seq<byte>, c0: byte, c1: byte) {
    && s == junk + [DOLLAR] + p + [HASH, c0, c1]
    && Free(p, DOLLAR) && Free(p, HASH) && c0 != DOLLAR && c1 != DOLLAR
  }

  lemma LastDollarSpec(s: seq<byte>, k: nat)
    requires k <= |s|
    ensures var j := LastDollar(s, k);
      && (j >= 0 ==> s[j] == DOLLAR)
      && forall i :: j < i < k ==> s[i] != DOLLAR
  {
  }

  lemma FirstHashSpec(s: seq<byte>, f: nat, k: nat)
    requires f <= k <= |s|
    ensures var h := FirstHash(s, f, k);
      && (h < k ==> s[h] == HASH)
      && forall i :: f <= i < h ==> s[i] != HASH
  {
  }

  lemma LastDollarIs(s: seq<byte>, k: nat, j: nat)
    requires j < k <= |s| && s[j] == DOLLAR && forall i :: j < i < k ==> s[i] != DOLLAR
    ensures LastDollar(s, k) == j
  {
  }

  lemma FirstHashIs(s: seq<byte>, f: nat, k: nat, h: nat)
    requires f <= h < k <= |s| && s[h] == HASH && forall i :: f <= i < h ==> s[i] != HASH
    ensures FirstHash(s, f, k) == h
  {
    FirstHashSpec(s, f, k);
  }

  /** A frame is complete exactly where the text ends in one. */
  lemma CompletesByShape(s: seq<byte>, k: nat, junk: seq<byte>, p: seq<byte>, c0: byte, c1: byte)
    requires k <= |s| && EndsInFrame(s[..k], junk, p, c0, c1)
    ensures Completes(s, k) && Payload(s, k) == p
    ensures ChecksumOk(s, k) <==> Sum(p) == HexByte(c0, c1)
  {
    var j, h := |junk|, |junk| + 1 + |p|;
    var t := s[..k];
    assert t[j] == DOLLAR && t[h] == HASH && t[h + 1] == c0 && t[h + 2] == c1 && k == h + 3;
    forall i | j < i < k
      ensures s[i] != DOLLAR
    {
      assert s[i] == t[i];
      assert i < h ==> t[i] == p[i - j - 1];
    }
    forall i | j < i < h
      ensures s[i] != HASH
    {
      assert s[i] == t[i] == p[i - j - 1];
    }
    LastDollarIs(s, k, j);
    FirstHashIs(s, j + 1, k, h);
    assert s[j + 1..h] == t[j + 1..h] == p;
  }

  lemma ShapeOfCompletes(s: seq<byte>, k: nat)
    requires k <= |s| && Completes(s, k)
    ensures EndsInFrame(s[..k], s[..LastDollar(s, k)], Payload(s, k), s[k - 2], s[k - 1])
  {
    var j, h := LastDollar(s, k), HashAfter(s, k);
    LastDollarSpec(s, k);
    FirstHashSpec(s, j + 1, k);
    assert s[..k] == s[..j] + [DOLLAR] + s[j + 1..h] + [HASH, s[k - 2], s[k - 1]];
  }

  lemma OverflowsByShape(s: seq<byte>, k: nat, junk: seq<byte>, p: seq<byte>)
    requires k <= |s| && s[..k] == junk + [DOLLAR] + p
    requires Free(p, DOLLAR) && Free(p, HASH) && |p| == 127
    ensures Overflows(s, k)
  {
    var j, t := |junk|, s[..k];
    assert t[j] == DOLLAR;
    forall i | j < i < k
      ensures s[i] != DOLLAR && s[i] != HASH
    {
      assert s[i] == t[i] == p[i - j - 1];
    }
    LastDollarIs(s, k, j);
    FirstHashSpec(s, j + 1, k);
  }

  lemma ShapeOfOverflows(s: seq<byte>, k: nat)
    requires k <= |s| && Overflows(s, k)
    ensures var j, p := LastDollar(s, k), Payload(s, k);
      && s[..k] == s[..j] + [DOLLAR] + p
      && Free(p, DOLLAR) && Free(p, HASH) && |p| == BUFFER_SIZE - 1
  {
    var j := LastDollar(s, k);
    LastDollarSpec(s, k);
    FirstHashSpec(s, j + 1, k);
    assert s[..k] == s[..j] + [DOLLAR] + s[j + 1..k];
  }

  /** The outcome is the first event there is, of either kind. */
  lemma {:induction false} OutcomeIsFirst(s: seq<byte>, from: nat)
    requires from <= |s|
    ensures var r := FirstOutcome(s, from);
      var end := if r.Waiting? then |s| + 1 else r.used;
      && from <= end <= |s| + 1 && (r.Waiting? || end <= |s|)
      && (forall k :: from <= k < end ==> !Accepts(s, k) && !Overflows(s, k))
      && (r.Packet? ==> Accepts(s, end) && r.payload == Payload(s, end))
      && (r.Overflow? ==> Overflows(s, end))
    decreases |s| - from
  {
    hide Accepts, Overflows, Payload;
    if !Accepts(s, from) && !Overflows(s, from) && from < |s| {
      OutcomeIsFirst(s, from + 1);
    }
  }

  // ---- the buffer ----

  lemma NextByte(s: seq<byte>, n: nat)
    requires n < |s|
    ensures LastDollar(s, n + 1) == if s[n] == DOLLAR then n else LastDollar(s, n)
    ensures s[n] != DOLLAR && LastDollar(s, n) >= 0 ==>
      HashAfter(s, n + 1) ==
        if HashAfter(s, n) < n then HashAfter(s, n) else if s[n] == HASH then n else n + 1
  {
  }

  /** A payload that is coming in stands in the buffer. */
  lemma {:induction false} FilledHolds(b: Buffer, s: seq<byte>, n: nat)
    requires n <= |s| && LastDollar(s, n) >= 0 && |Payload(s, n)| <= BUFFER_SIZE
    ensures Filled(b, s, n)[..|Payload(s, n)|] == Payload(s, n)
  {
    var j, k := LastDollar(s, n), n - 1;
    if s[k] != DOLLAR {
      NextByte(s, k);
      if HashAfter(s, k) == k && s[k] != HASH {
        assert Payload(s, n) == Payload(s, k) + [s[k]];
        FilledHolds(b, s, k);
        var b' := Filled(b, s, k);
        assert b'[|Payload(s, k)| := s[k]][..|Payload(s, n)|] == b'[..|Payload(s, k)|] + [s[k]];
      } else {
        FilledHolds(b, s, k);
      }
    }
  }

  /** What is accepted fits: a longer payload overflows first. */
  lemma AcceptedFits(s: seq<byte>)
    requires FirstOutcome(s, 0).Packet?
    ensures |FirstOutcome(s, 0).payload| <= 126
  {
    hide Completes, ChecksumOk, Overflows, FirstOutcome, Payload;
    OutcomeTakesInput(s, 0);
    OutcomeIsFirst(s, 0);
    var r := FirstOutcome(s, 0);
    LongOverflows(s, r.used);
  }

  lemma LongOverflows(s: seq<byte>, u: nat)
    requires u <= |s| && Completes(s, u)
    ensures |Payload(s, u)| >= BUFFER_SIZE - 1 ==>
      var k := LastDollar(s, u) + BUFFER_SIZE; k < u && Overflows(s, k)
  {
    var j, k := LastDollar(s, u), LastDollar(s, u) + BUFFER_SIZE;
    LastDollarSpec(s, u);
    FirstHashSpec(s, j + 1, u);
    if |Payload(s, u)| >= BUFFER_SIZE - 1 {
      LastDollarIs(s, k, j);
      FirstHashSpec(s, j + 1, k);
    }
  }

  /** The reader leaves the payload in the buffer, with a NUL behind it. */
  lemma ReceivedHolds(b: Buffer, s: seq<byte>)
    requires FirstOutcome(s, 0).Packet?
    ensures var r := FirstOutcome(s, 0);
      && |r.payload| < BUFFER_SIZE - 1
      && Received(b, s, r)[..|r.payload| + 1] == r.payload + [0]
  {
    hide FirstOutcome, Filled;
    OutcomeTakesInput(s, 0);
    OutcomeIsFirst(s, 0);
    AcceptedFits(s);
    var r := FirstOutcome(s, 0);
    FilledHolds(b, s, r.used);
    var b', n := Filled(b, s, r.used), |r.payload|;
    assert b'[n := 0][..n + 1] == b'[..n] + [0];
  }

  // ---- frames as a host writes them ----

  /** The sum of the bytes. */
  function Total(p: seq<byte>): nat {
    if p == [] then 0 else Total(p[..|p| - 1]) + p[|p| - 1] as int
  }

  lemma SumStep(p: seq<byte>)
    ensures if p == [] then Sum(p) as int == 0 else Sum(p) == Plus(Sum(p[..|p| - 1]), p[|p| - 1])
  {
  }

  lemma {:induction false} SumIsTotal(p: seq<byte>)
    ensures Sum(p) as int == Total(p) % 256
  {
    hide Sum, Plus;
    SumStep(p);
    if p != [] {
      var n := |p| - 1;
      SumIsTotal(p[..n]);
      AddBytes(Sum(p[..n]), p[n], p[n] as int);
      AddModulo(Total(p[..n]), p[n] as int);
    }
  }

  /** The special characters of the protocol. */
  lemma MarksAre()
    ensures DOLLAR == Code('$') && HASH == Code('#') && PLUS == Code('+') && MINUS == Code('-')
  {
    SameValue(DOLLAR, Code('$'));
    SameValue(HASH, Code('#'));
    SameValue(PLUS, Code('+'));
    SameValue(MINUS, Code('-'));
  }

  /** Two characters, digits or not, taken for the checksum of `p`. */
  predicate Checks(p: seq<byte>, c0: byte, c1: byte) {
    16 * DigitValue(c0) + DigitValue(c1) == Total(p) % 256
  }

  lemma ChecksIs(p: seq<byte>, c0: byte, c1: byte)
    ensures Checks(p, c0, c1) <==> Sum(p) == HexByte(c0, c1)
  {
    SumIsTotal(p);
    HexByteValue(c0, c1);
    if Checks(p, c0, c1) {
      SameValue(Sum(p), HexByte(c0, c1));
    }
  }

  /** `f` is `p` between its marks, with two more characters behind. */
  predicate Marks(f: seq<byte>, p: seq<byte>) {
    && |f| == |p| + 4
    && f == [Code('$')] + p + [Code('#'), f[|p| + 2], f[|p| + 3]]
    && f[|p| + 2] != Code('$') && f[|p| + 3] != Code('$')
  }

  /** And these are the digits of the checksum, in either case. */
  predicate Frames(f: seq<byte>, p: seq<byte>) {
    && Marks(f, p)
    && IsHexDigit(f[|p| + 2]) && IsHexDigit(f[|p| + 3]) && Checks(p, f[|p| + 2], f[|p| + 3])
  }

  /** What the writer sends is a frame. */
  lemma FrameFrames(p: seq<byte>)
    ensures Frames(Frame(p), p)
  {
    MarksAre();
    DigitsOfByte(Sum(p));
    ChecksIs(p, HighDigit(Sum(p)), LowDigit(Sum(p)));
    var f := Frame(p);
    assert f[|p| + 2] == HighDigit(Sum(p)) && f[|p| + 3] == LowDigit(Sum(p));
  }

  /** A payload that the reader can take. */
  predicate Sendable(p: seq<byte>) {
    Free(p, DOLLAR) && Free(p, HASH) && |p| <= 126
  }

  // ---- writer and reader together ----

  lemma NoDollarYet(s: seq<byte>, k: nat)
    requires k <= |s| && forall i :: 0 <= i < k ==> s[i] != DOLLAR
    ensures LastDollar(s, k) == -1
  {
  }

  /** Nothing happens while junk and the frame's first bytes come in. */
  lemma QuietBeforeEnd(junk: seq<byte>, f: seq<byte>, p: seq<byte>, rest: seq<byte>, k: nat)
    requires Free(junk, DOLLAR) && Sendable(p) && Marks(f, p)
    requires k < |junk| + |p| + 4
    ensures var s := junk + f + rest;
      !Completes(s, k) && !Overflows(s, k)
  {
    MarksAre();
    var s := junk + f + rest;
    var j := |junk|;
    if k <= j {
      assert forall i :: 0 <= i < k ==> s[i] == junk[i];
      NoDollarYet(s, k);
    } else {
      assert s[j] == DOLLAR && s[j + 1 + |p|] == HASH;
      forall i | j < i < k
        ensures s[i] != DOLLAR && (i < j + 1 + |p| ==> s[i] == p[i - j - 1])
      {
        assert s[i] == f[i - j];
      }
      LastDollarIs(s, k, j);
      FirstHashSpec(s, j + 1, k);
      assert FirstHash(s, j + 1, k) == if k > j + 1 + |p| then j + 1 + |p| else k;
    }
  }

  /** The frame is complete at its end, and accepted if its checksum is right. */
  lemma FrameCompletes(junk: seq<byte>, f: seq<byte>, p: seq<byte>, rest: seq<byte>)
    requires Free(junk, DOLLAR) && Sendable(p) && Marks(f, p)
    ensures var s, end := junk + f + rest, |junk| + |p| + 4;
      Completes(s, end) && Payload(s, end) == p && (ChecksumOk(s, end) <==> Checks(p, f[|p| + 2], f[|p| + 3]))
  {
    MarksAre();
    var s, end := junk + f + rest, |junk| + |p| + 4;
    assert s[..end] == junk + [DOLLAR] + p + [HASH, f[|p| + 2], f[|p| + 3]];
    CompletesByShape(s, end, junk, p, f[|p| + 2], f[|p| + 3]);
    ChecksIs(p, f[|p| + 2], f[|p| + 3]);
  }

  /** What a host frames, or the writer, is delivered after any junk without
      `$`: the same payload, with no refusal on the way. */
  lemma WrittenIsRead(junk: seq<byte>, f: seq<byte>, p: seq<byte>, rest: seq<byte>, k: nat)
    requires Free(junk, DOLLAR) && Sendable(p) && Frames(f, p)
    requires k <= |junk| + |p| + 4
    ensures var s := junk + f + rest;
      FirstOutcome(s, k) == Packet(p, |junk| + |p| + 4) && Refusals(s, k) == []
    decreases |junk| + |p| + 4 - k
  {
    hide Completes, Overflows, ChecksumOk, Payload, Sendable, Free, Checks, Code;
    NoRefusals(junk, f, p, rest, k);
    if k == |junk| + |p| + 4 {
      FrameCompletes(junk, f, p, rest);
    } else {
      QuietBeforeEnd(junk, f, p, rest, k);
      WrittenIsRead(junk, f, p, rest, k + 1);
    }
  }

  lemma {:induction false} NoRefusals(junk: seq<byte>, f: seq<byte>, p: seq<byte>, rest: seq<byte>, k: nat)
    requires Free(junk, DOLLAR) && Sendable(p) && Frames(f, p)
    requires k <= |junk| + |p| + 4
    ensures Refusals(junk + f + rest, k) == []
  {
    hide Completes, Overflows, ChecksumOk, Payload, Sendable, Free, Checks, Code;
    if k > 0 {
      NoRefusals(junk, f, p, rest, k - 1);
      if k == |junk| + |p| + 4 {
        FrameCompletes(junk, f, p, rest);
      } else {
        QuietBeforeEnd(junk, f, p, rest, k);
      }
    }
  }

  /** A frame with a wrong checksum is refused with one `-`, and passed over. */
  lemma BadFrameIsRefused(junk: seq<byte>, f: seq<byte>, p: seq<byte>, rest: seq<byte>, k: nat)
    requires Free(junk, DOLLAR) && Sendable(p) && Marks(f, p) && !Checks(p, f[|p| + 2], f[|p| + 3])
    requires k <= |junk| + |p| + 4
    ensures var s, end := junk + f + rest, |junk| + |p| + 4;
      && Refusals(s, k) == (if k == end then [Code('-')] else [])
      && FirstOutcome(s, 0) == FirstOutcome(s, k)
  {
    hide Completes, Overflows, ChecksumOk, Payload, Sendable, Free, Checks, Code;
    MarksAre();
    var end := |junk| + |p| + 4;
    if k > 0 {
      BadFrameIsRefused(junk, f, p, rest, k - 1);
      QuietBeforeEnd(junk, f, p, rest, k - 1);
      if k == end {
        FrameCompletes(junk, f, p, rest);
      } else {
        QuietBeforeEnd(junk, f, p, rest, k);
      }
    }
  }

  /** 127 bytes behind a `$`, before any mark, are too many: that is the first
      thing to happen. */
  lemma LongOverruns(junk: seq<byte>, p: seq<byte>, rest: seq<byte>, k: nat)
    requires Free(junk, DOLLAR) && Free(p, DOLLAR) && Free(p, HASH) && |p| == 127 && k <= |junk| + 128
    ensures var s := junk + [Code('$')] + p + rest;
      FirstOutcome(s, k) == Overflow(|junk| + 128) && Refusals(s, k) == []
    decreases |junk| + 128 - k
  {
    hide Completes, Overflows, Payload, Free, Code;
    MarksAre();
    var s, end := junk + [Code('$')] + p + rest, |junk| + 128;
    QuietWhileLong(junk, p, rest, k);
    LongNotRefused(junk, p, rest, k);
    if k == end {
      assert s[..end] == junk + [DOLLAR] + p;
      OverflowsByShape(s, end, junk, p);
    } else {
      LongOverruns(junk, p, rest, k + 1);
    }
  }

  lemma QuietWhileLong(junk: seq<byte>, p: seq<byte>, rest: seq<byte>, k: nat)
    requires Free(junk, DOLLAR) && Free(p, DOLLAR) && Free(p, HASH) && |p| == 127 && k <= |junk| + 128
    ensures var s := junk + [Code('$')] + p + rest;
      !Completes(s, k) && (k < |junk| + 128 ==> !Overflows(s, k))
  {
    MarksAre();
    var s, j := junk + [Code('$')] + p + rest, |junk|;
    if k <= j {
      assert forall i :: 0 <= i < k ==> s[i] == junk[i];
      NoDollarYet(s, k);
    } else {
      assert s[j] == DOLLAR;
      assert forall i :: j < i < k ==> s[i] == p[i - j - 1];
      LastDollarIs(s, k, j);
      FirstHashSpec(s, j + 1, k);
    }
  }

  lemma {:induction false} LongNotRefused(junk: seq<byte>, p: seq<byte>, rest: seq<byte>, k: nat)
    requires Free(junk, DOLLAR) && Free(p, DOLLAR) && Free(p, HASH) && |p| == 127 && k <= |junk| + 128
    ensures Refusals(junk + [Code('$')] + p + rest, k) == []
  {
    hide Completes, Code, Free;
    if k > 0 {
      LongNotRefused(junk, p, rest, k - 1);
      QuietWhileLong(junk, p, rest, k);
    }
  }
}
