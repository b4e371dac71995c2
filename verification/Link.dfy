/** The serial link: server_read_data up to the call of process_packet, and
    write_packet_bytes. */
module Link {
  import opened Machine
  import opened Hex
  import opened Framing
  import opened Parsing

  datatype End = More | Full | Complete

  datatype ReadState = Junk | PacketInProgress | ChecksumB1 | ChecksumB2

  /** What the reader knows after the first `n` bytes of `s`. */
  ghost predicate Tracks(s: seq<byte>, n: nat, state: ReadState, buffer: seq<byte>, offset: nat, sum: byte, c0: byte)
    requires n <= |s|
  {
    var j := LastDollar(s, n);
    && offset < BUFFER_SIZE - 1 && offset <= |buffer|
    && (state.Junk? ==> j < 0 || HashAfter(s, n) + 3 <= n)
    && (!state.Junk? ==> j >= 0 && buffer[..offset] == Payload(s, n) && sum == Sum(buffer[..offset]))
    && (state.PacketInProgress? ==> HashAfter(s, n) == n)
    && (state.ChecksumB1? ==> HashAfter(s, n) + 1 == n)
    && (state.ChecksumB2? ==> HashAfter(s, n) + 2 == n && c0 == s[n - 1])
  }

  lemma Pass(s: seq<byte>, n: nat)
    requires n < |s| && !Accepts(s, n) && !Overflows(s, n)
    ensures FirstOutcome(s, n) == FirstOutcome(s, n + 1)
    ensures Accepts(s, n + 1) ==> FirstOutcome(s, n) == Packet(Payload(s, n + 1), n + 1)
    ensures !Accepts(s, n + 1) && Overflows(s, n + 1) ==> FirstOutcome(s, n) == Overflow(n + 1)
    ensures Refusals(s, n + 1) == Refusals(s, n) + Refusal(s, n + 1)
    ensures Accepts(s, n + 1) || !Completes(s, n + 1) ==> Refusals(s, n + 1) == Refusals(s, n)
  {
  }

  lemma EndOfInput(s: seq<byte>)
    requires !Accepts(s, |s|) && !Overflows(s, |s|)
    ensures FirstOutcome(s, |s|) == Waiting
  {
  }

  /** No event at `n`: nothing is answered. */
  ghost predicate Quiet(s: seq<byte>, n: nat)
    requires n <= |s|
  {
    !Completes(s, n) && !Overflows(s, n)
  }

  lemma Start(s: seq<byte>, buffer: seq<byte>)
    ensures Tracks(s, 0, Junk, buffer, 0, 0, 0) && !Accepts(s, 0) && !Overflows(s, 0) && Refusals(s, 0) == []
  {
  }

  lemma FilledNone(b: Buffer, s: seq<byte>)
    ensures Filled(b, s, 0) == b
  {
  }

  /** The buffer after one more byte. */
  lemma Stores(b: Buffer, s: seq<byte>, n: nat, state: ReadState, buffer: seq<byte>, offset: nat, sum: byte, c0: byte)
    requires n < |s| && Tracks(s, n, state, buffer, offset, sum, c0)
    ensures offset < BUFFER_SIZE
    ensures Filled(b, s, n + 1) ==
      if state.PacketInProgress? && s[n] != DOLLAR && s[n] != HASH then Filled(b, s, n)[offset := s[n]]
      else Filled(b, s, n)
    ensures offset < BUFFER_SIZE - 1
  {
  }

  lemma OnDollar(s: seq<byte>, n: nat, buffer: seq<byte>, c0: byte)
    requires n < |s| && s[n] == DOLLAR
    ensures Tracks(s, n + 1, PacketInProgress, buffer, 0, 0, c0) && Quiet(s, n + 1)
  {
    NextByte(s, n);
  }

  lemma OnJunk(s: seq<byte>, n: nat, buffer: seq<byte>, offset: nat, sum: byte, c0: byte)
    requires n < |s| && s[n] != DOLLAR && Tracks(s, n, Junk, buffer, offset, sum, c0)
    ensures Tracks(s, n + 1, Junk, buffer, offset, sum, c0) && Quiet(s, n + 1)
  {
    NextByte(s, n);
  }

  lemma OnHash(s: seq<byte>, n: nat, buffer: seq<byte>, offset: nat, sum: byte, c0: byte)
    requires n < |s| && s[n] == HASH && Tracks(s, n, PacketInProgress, buffer, offset, sum, c0)
    ensures Tracks(s, n + 1, ChecksumB1, buffer, offset, sum, c0) && Quiet(s, n + 1)
  {
    NextByte(s, n);
  }

  lemma Extends(s: seq<byte>, i: nat, n: nat)
    requires i <= n < |s|
    ensures s[i..n + 1] == s[i..n] + [s[n]]
  {
  }

  lemma StoredNext(buffer: seq<byte>, offset: nat, c: byte)
    requires offset < |buffer|
    ensures buffer[offset := c][..offset + 1] == buffer[..offset] + [c]
  {
  }

  lemma SumOfNext(p: seq<byte>, c: byte)
    ensures Sum(p + [c]) == Sum(p) + c
  {
    assert (p + [c])[..|p|] == p;
  }

  lemma OnPayload(s: seq<byte>, n: nat, buffer: seq<byte>, offset: nat, sum: byte, c0: byte)
    requires n < |s| && s[n] != DOLLAR && s[n] != HASH && |buffer| == BUFFER_SIZE
    requires Tracks(s, n, PacketInProgress, buffer, offset, sum, c0)
    ensures !Completes(s, n + 1) && (Overflows(s, n + 1) <==> offset + 1 == BUFFER_SIZE - 1)
    ensures !Overflows(s, n + 1) ==>
      Tracks(s, n + 1, PacketInProgress, buffer[offset := s[n]], offset + 1, sum + s[n], c0)
  {
    NextByte(s, n);
    Extends(s, LastDollar(s, n) + 1, n);
    StoredNext(buffer, offset, s[n]);
    SumOfNext(buffer[..offset], s[n]);
  }

  lemma OnFirstDigit(s: seq<byte>, n: nat, buffer: seq<byte>, offset: nat, sum: byte, c0: byte)
    requires n < |s| && s[n] != DOLLAR && Tracks(s, n, ChecksumB1, buffer, offset, sum, c0)
    ensures Tracks(s, n + 1, ChecksumB2, buffer, offset, sum, s[n]) && Quiet(s, n + 1)
  {
    NextByte(s, n);
  }

  lemma OnSecondDigit(s: seq<byte>, n: nat, buffer: seq<byte>, offset: nat, sum: byte, c0: byte)
    requires n < |s| && s[n] != DOLLAR && Tracks(s, n, ChecksumB2, buffer, offset, sum, c0)
    ensures Completes(s, n + 1) && Payload(s, n + 1) == buffer[..offset]
    ensures ChecksumOk(s, n + 1) <==> sum == HexByte(c0, s[n])
    ensures Tracks(s, n + 1, Junk, buffer, offset, sum, c0) && !Overflows(s, n + 1)
  {
    NextByte(s, n);
  }

  class Port {
    const buffer: array<byte>
    const wBuffer: array<byte>
    var input: seq<byte>
    var output: seq<byte>

    ghost predicate Valid()
      reads this
    {
      buffer.Length == BUFFER_SIZE && wBuffer.Length == BUFFER_SIZE && buffer != wBuffer
    }

    constructor (bytes: seq<byte>)
      ensures Valid() && fresh(buffer) && fresh(wBuffer) && input == bytes && output == []
    {
      buffer := new byte[BUFFER_SIZE](_ => 0);
      wBuffer := new byte[BUFFER_SIZE](_ => 0);
      input, output := bytes, [];
    }

    /** One turn of the reader's loop; `b0` is the buffer when `s` began. */
    method Receive(c: byte, ghost s: seq<byte>, ghost n: nat, ghost b0: Buffer,
                   state: ReadState, offset: nat, sum: byte, c0: byte)
      returns (state': ReadState, offset': nat, sum': byte, c0': byte, end: End)
      requires Valid() && n < |s| && c == s[n]
      requires Tracks(s, n, state, buffer[..], offset, sum, c0) && buffer[..] == Filled(b0, s, n)
      modifies this`output, buffer
      ensures offset' < BUFFER_SIZE
      ensures end.Complete? ==> offset' < BUFFER_SIZE - 1
      ensures buffer[..] == if end.Complete? then Filled(b0, s, n + 1)[offset' := 0] else Filled(b0, s, n + 1)
      ensures end.More? ==> Tracks(s, n + 1, state', buffer[..], offset', sum', c0')
                            && !Accepts(s, n + 1) && !Overflows(s, n + 1)
      ensures end.Full? ==> Overflows(s, n + 1) && !Accepts(s, n + 1)
      ensures end.Complete? ==> Accepts(s, n + 1) && Payload(s, n + 1) == buffer[..offset']
      ensures output == old(output) + (if end.Complete? then [PLUS] else Refusal(s, n + 1))
    {
      hide Filled, Payload, Tracks, Completes, Overflows, ChecksumOk;
      ghost var b := buffer[..];
      Stores(b0, s, n, state, b, offset, sum, c0);
      state', offset', sum', c0', end := state, offset, sum, c0, More;
      if c == DOLLAR {
        OnDollar(s, n, b, c0);
        state', offset', sum' := PacketInProgress, 0, 0;
        return;
      }
      match state {
        case Junk =>
          OnJunk(s, n, b, offset, sum, c0);
        case PacketInProgress =>
          if c == HASH {
            OnHash(s, n, b, offset, sum, c0);
            state' := ChecksumB1;
          } else {
            OnPayload(s, n, b, offset, sum, c0);
            buffer[offset] := c;
            offset', sum' := offset + 1, sum + c;
            if offset' == BUFFER_SIZE - 1 {
              end := Full;
            }
          }
        case ChecksumB1 =>
          OnFirstDigit(s, n, b, offset, sum, c0);
          c0', state' := c, ChecksumB2;
        case ChecksumB2 =>
          OnSecondDigit(s, n, b, offset, sum, c0);
          if sum == HexByte(c0, c) {
            output := output + [PLUS];
            buffer[offset] := 0;
            end := Complete;
          } else {
            output := output + [MINUS];
            state' := Junk;
          }
      }
    }

    /** Read one byte and act on it; `sent` is what had been sent when `s` began. */
    method Turn(ghost s: seq<byte>, ghost n: nat, ghost b0: Buffer, ghost sent: seq<byte>,
                state: ReadState, offset: nat, sum: byte, c0: byte)
      returns (state': ReadState, offset': nat, sum': byte, c0': byte, end: End)
      requires Valid() && n < |s| && input == s[n..] && output == sent + Refusals(s, n)
      requires Tracks(s, n, state, buffer[..], offset, sum, c0) && !Accepts(s, n) && !Overflows(s, n)
      requires buffer[..] == Filled(b0, s, n)
      modifies this`input, this`output, buffer
      ensures input == s[n + 1..] && offset' < BUFFER_SIZE
      ensures buffer[..] == if end.Complete? then Filled(b0, s, n + 1)[offset' := 0] else Filled(b0, s, n + 1)
      ensures output == sent + Refusals(s, n + 1) + (if end.Complete? then [PLUS] else [])
      ensures match end
        case More =>
          && FirstOutcome(s, n) == FirstOutcome(s, n + 1)
          && Tracks(s, n + 1, state', buffer[..], offset', sum', c0') && !Accepts(s, n + 1) && !Overflows(s, n + 1)
        case Full => FirstOutcome(s, n) == Overflow(n + 1)
        case Complete =>
          && offset' < BUFFER_SIZE - 1
          && FirstOutcome(s, n) == Packet(buffer[..offset'], n + 1)
    {
      hide Tracks, FirstOutcome, Refusals, Payload, Filled;
      Pass(s, n);
      var c := input[0];
      input := input[1..];
      state', offset', sum', c0', end := Receive(c, s, n, b0, state, offset, sum, c0);
      assert [] + [PLUS] == [PLUS];
      if end.Complete? {
        assert Refusals(s, n + 1) == Refusals(s, n);
      }
    }

    /** The loop of server_read_data. `Waiting` is where it would block. */
    method ReadPacket() returns (r: Outcome)
      requires Valid()
      modifies this, buffer
      ensures Valid()
      ensures r == FirstOutcome(old(input), 0)
      ensures buffer[..] == Received(old(buffer[..]), old(input), r)
      ensures var used := if r.Waiting? then |old(input)| else r.used;
        && used <= |old(input)| && input == old(input)[used..]
        && output == old(output) + Refusals(old(input), used) + (if r.Packet? then [PLUS] else [])
    {
      hide Tracks, FirstOutcome, Refusals, Accepts, Overflows, Filled;
      ghost var s, sent, b0 := input, output, buffer[..];
      FilledNone(b0, s);
      var n: nat, offset: nat := 0, 0;
      var state, sum, c0, end := Junk, 0, 0, More;
      Start(s, buffer[..]);
      while true
        invariant 0 <= n <= |s| && Valid() && end.More?
        invariant input == s[n..] && output == sent + Refusals(s, n)
        invariant Tracks(s, n, state, buffer[..], offset, sum, c0) && buffer[..] == Filled(b0, s, n)
        invariant FirstOutcome(s, 0) == FirstOutcome(s, n)
        invariant !Accepts(s, n) && !Overflows(s, n)
        decreases |s| - n
      {
        if input == [] {
          EndOfInput(s);
          return Waiting;
        }
        state, offset, sum, c0, end := Turn(s, n, b0, sent, state, offset, sum, c0);
        n := n + 1;
        if end.Full? {
          return Overflow(n);
        }
        if end.Complete? {
          return Packet(buffer[..offset], n);
        }
      }
    }

    // ---- the writer ----

    /** write_packet_bytes. A packet that does not fit is replaced by an error. */
    method WritePacketBytes(data: seq<byte>)
      requires Valid() && |data| < 256
      modifies this`output, buffer, wBuffer
      ensures output == old(output) + Frame(if |data| + 4 <= BUFFER_SIZE then data else ERROR_REPLY)
      ensures buffer[..] == if |data| + 4 <= BUFFER_SIZE then old(buffer[..]) else Marked(old(buffer[..]))
      decreases if |data| + 4 > BUFFER_SIZE then 2 else 0
    {
      if |data| + 4 > BUFFER_SIZE {
        WriteError();
        return;
      }
      FillFrame(data);
      WriteRaw(|data| + 4);
    }

    /** Compose the frame in the transmit buffer. */
    method FillFrame(data: seq<byte>)
      requires Valid() && |data| + 4 <= BUFFER_SIZE
      modifies wBuffer
      ensures wBuffer[..|data| + 4] == Frame(data)
    {
      wBuffer[0] := DOLLAR;
      var i := 0;
      while i < |data|
        invariant 0 <= i <= |data|
        invariant wBuffer[..i + 1] == [DOLLAR] + data[..i]
      {
        wBuffer[i + 1] := data[i];
        i := i + 1;
      }
      assert data[..i] == data;
      wBuffer[i + 1] := HASH;
      var checksum := Checksum(data);
      CharToHex(wBuffer, i + 2, checksum);
      assert wBuffer[..i + 4] == wBuffer[..i + 2] + [HighDigit(checksum), LowDigit(checksum)];
    }

    method Checksum(data: seq<byte>) returns (checksum: byte)
      ensures checksum == Sum(data)
    {
      checksum := 0;
      var i := 0;
      while i < |data|
        invariant 0 <= i <= |data| && checksum == Sum(data[..i])
      {
        SumGrows(data, i);
        checksum := checksum + data[i];
        i := i + 1;
      }
      assert data[..i] == data;
    }

    method WriteRaw(len: nat)
      requires Valid() && len <= BUFFER_SIZE
      modifies this`output
      ensures output == old(output) + wBuffer[..len]
    {
      var i := 0;
      while i < len
        invariant 0 <= i <= len
        invariant output == old(output) + wBuffer[..i]
      {
        output := output + [wBuffer[i]];
        i := i + 1;
      }
    }

    /** write_error. The byte behind the receive buffer is the first of the
        transmit buffer. */
    method WriteError()
      requires Valid()
      modifies this`output, buffer, wBuffer
      ensures output == old(output) + Frame(ERROR_REPLY)
      ensures buffer[..] == Marked(old(buffer[..]))
      decreases 1
    {
      var h := 0;
      while h < BUFFER_SIZE && buffer[h] != 0 && buffer[h] != HASH
        invariant 0 <= h <= BUFFER_SIZE
        invariant Chr(buffer[..], 0, HASH) == Chr(buffer[..], h, HASH)
      {
        h := h + 1;
      }
      var term := BUFFER_SIZE - 1;
      if h <= BUFFER_SIZE - 3 && buffer[h] == HASH {
        term := h + 3;
      }
      if term < BUFFER_SIZE {
        buffer[term] := DOLLAR;
      } else {
        wBuffer[0] := DOLLAR;
      }
      WritePacketBytes(ERROR_REPLY);
    }
  }
}
