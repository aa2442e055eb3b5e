/**
 Log records of the agent travel as streams of fixed-size messages: a string is encoded as
 UTF-16, cut into chunks, and put together again on the other side.
 */
module AuxStream {
  import opened Wrappers

  type u16 = x: int | 0 <= x < 0x1_0000

  /** A Unicode scalar value. */
  type Scalar = c: int | 0 <= c < 0x11_0000 && !(0xD800 <= c < 0xE000)

  const REPLACEMENT: Scalar := 0xFFFD
  const CHUNK_SIZE: nat := 512

  // ----- UTF-16, sections 2.1 and 2.2 of RFC 2781

  function EncodeScalar(c: Scalar): (r: seq<u16>)
    ensures r != []
  {
    if c < 0x1_0000 then [c]
    else [0xD800 + (c - 0x1_0000) / 0x400, 0xDC00 + (c - 0x1_0000) % 0x400]
  }

  function EncodeUtf16(s: seq<Scalar>): (r: seq<u16>)
    ensures s != [] ==> r != []
  {
    if s == [] then [] else EncodeScalar(s[0]) + EncodeUtf16(s[1..])
  }

  predicate IsHigh(u: u16) { 0xD800 <= u < 0xDC00 }

  predicate IsLow(u: u16) { 0xDC00 <= u < 0xE000 }

  /** `from_utf16_lossy`: an unpaired surrogate becomes the replacement character. */
  function DecodeLossy(units: seq<u16>): seq<Scalar>
    decreases |units|
  {
    if units == [] then []
    else if IsHigh(units[0]) && |units| >= 2 && IsLow(units[1]) then
      [0x1_0000 + (units[0] - 0xD800) * 0x400 + (units[1] - 0xDC00)] + DecodeLossy(units[2..])
    else if IsHigh(units[0]) || IsLow(units[0]) then
      [REPLACEMENT] + DecodeLossy(units[1..])
    else
      [units[0]] + DecodeLossy(units[1..])
  }

  /** Nothing is lost, so the lossy decoder never has to replace anything. */
  lemma {:induction false} DecodeEncode(s: seq<Scalar>)
    ensures DecodeLossy(EncodeUtf16(s)) == s
  {
    if s != [] {
      DecodeEncode(s[1..]);
      var head, rest := EncodeScalar(s[0]), EncodeUtf16(s[1..]);
      assert (head + rest)[|head|..] == rest;
      assert s == [s[0]] + s[1..];
    }
  }

  // ----- messages

  /** One unit for the basic plane; otherwise a high and a low surrogate that hold ten bits each. */
  lemma EncodedScalar(c: Scalar)
    ensures c < 0x1_0000 ==> EncodeScalar(c) == [c]
    ensures c >= 0x1_0000 ==>
              var r := EncodeScalar(c);
              |r| == 2 && IsHigh(r[0]) && IsLow(r[1]) && c == 0x1_0000 + (r[0] as int - 0xD800) * 1024 + (r[1] as int - 0xDC00)
  {
  }

  /** High surrogates are followed by low ones, and low ones follow high ones. */
  ghost predicate WellPaired(units: seq<u16>) {
    && (forall i :: 0 <= i < |units| && IsHigh(units[i]) ==> i + 1 < |units| && IsLow(units[i + 1]))
    && (forall i :: 0 <= i < |units| && IsLow(units[i]) ==> i > 0 && IsHigh(units[i - 1]))
  }

  lemma {:induction false} EncodingIsWellPaired(s: seq<Scalar>)
    ensures WellPaired(EncodeUtf16(s))
  {
    if s != [] {
      EncodingIsWellPaired(s[1..]);
      EncodedScalar(s[0]);
      PairedInFront(s[0], EncodeUtf16(s[1..]));
    }
  }

  lemma PairedInFront(c: Scalar, units: seq<u16>)
    requires WellPaired(units)
    ensures WellPaired(EncodeScalar(c) + units)
  {
    var r, n := EncodeScalar(c) + units, |EncodeScalar(c)|;
    assert forall i :: n <= i < |r| ==> r[i] == units[i - n];
  }

  lemma {:induction false} DecodeWellPaired(units: seq<u16>)
    requires WellPaired(units)
    ensures EncodeUtf16(DecodeLossy(units)) == units
    decreases |units|
  {
    if units != [] {
      var n := if IsHigh(units[0]) then 2 else 1;
      PairedBehind(units, n);
      DecodeWellPaired(units[n..]);
      if n == 2 { SurrogatesOf(units[0], units[1]); }
      assert EncodeScalar(DecodeLossy(units)[0]) == units[..n] && DecodeLossy(units)[1..] == DecodeLossy(units[n..]);
      assert units == units[..n] + units[n..];
    }
  }

  lemma PairedBehind(units: seq<u16>, n: nat)
    requires units != [] && WellPaired(units) && n == if IsHigh(units[0]) then 2 else 1
    ensures n <= |units| && !IsHigh(units[n - 1]) && WellPaired(units[n..])
  {
    var rest := units[n..];
    forall i | 0 <= i < |rest| && IsLow(rest[i]) ensures i > 0 && IsHigh(rest[i - 1]) {
      assert rest[i] == units[i + n] && IsHigh(units[i + n - 1]);
    }
    forall i | 0 <= i < |rest| && IsHigh(rest[i]) ensures i + 1 < |rest| && IsLow(rest[i + 1]) {
      assert rest[i] == units[i + n] && IsLow(units[i + n + 1]);
    }
  }

  lemma SurrogatesOf(hi: u16, lo: u16)
    requires IsHigh(hi) && IsLow(lo)
    ensures EncodeScalar(0x1_0000 + (hi as int - 0xD800) * 0x400 + (lo as int - 0xDC00)) == [hi, lo]
  {
    var h, l := hi as int - 0xD800, lo as int - 0xDC00;
    assert (h * 0x400 + l) / 0x400 == h && (h * 0x400 + l) % 0x400 == l;
  }

  /** Decoding loses something exactly if there is an unpaired surrogate. */
  lemma LossyExactly(units: seq<u16>)
    ensures EncodeUtf16(DecodeLossy(units)) == units <==> WellPaired(units)
  {
    if WellPaired(units) { DecodeWellPaired(units); }
    EncodingIsWellPaired(DecodeLossy(units));
  }

  /** What is lost: an unpaired surrogate becomes U+FFFD, and decoding goes on behind it. */
  lemma LoneSurrogate(u: u16, rest: seq<u16>)
    requires IsLow(u) || (IsHigh(u) && (rest == [] || !IsLow(rest[0])))
    ensures DecodeLossy([u] + rest) == [0xFFFD] + DecodeLossy(rest)
  {
    assert ([u] + rest)[1..] == rest;
  }

  datatype AuxStreamType = Invalid | LogRecord

  datatype AuxStreamMessage = AuxStreamMessage(streamType: AuxStreamType, chunkLen: nat, chunk: seq<byte>, msgsLeft: nat)

  predicate WellFormed(m: AuxStreamMessage) { m.chunkLen <= |m.chunk| == CHUNK_SIZE }

  /** The payload goes to the front of a zeroed buffer. */
  function NewMessage(t: AuxStreamType, payload: seq<byte>, msgsLeft: Option<nat>): (m: AuxStreamMessage)
    requires |payload| <= CHUNK_SIZE
    ensures WellFormed(m) && m.chunk[..m.chunkLen] == payload
  {
    AuxStreamMessage(t, |payload|, payload + seq(CHUNK_SIZE - |payload|, _ => 0),
                     if msgsLeft.Some? then msgsLeft.value else 0)
  }

  function ToBytes(units: seq<u16>): (r: seq<byte>)
    ensures |r| == 2 * |units|
  {
    if units == [] then [] else [units[0] % 256, units[0] / 256] + ToBytes(units[1..])
  }

  function ToUnits(bytes: seq<byte>): (r: seq<u16>)
    requires |bytes| % 2 == 0
    ensures |r| == |bytes| / 2
    decreases |bytes|
  {
    if bytes == [] then [] else [bytes[0] + 256 * (bytes[1] as int)] + ToUnits(bytes[2..])
  }

  lemma {:induction false} UnitsOfBytes(units: seq<u16>)
    ensures ToUnits(ToBytes(units)) == units
  {
    if units != [] {
      UnitsOfBytes(units[1..]);
      assert ToBytes(units)[2..] == ToBytes(units[1..]);
      assert units == [units[0]] + units[1..];
    }
  }

  /** Little endian: low byte first. */
  lemma {:induction false} BytesAt(units: seq<u16>, i: nat)
    requires i < |units|
    ensures ToBytes(units)[2 * i] == units[i] % 256 && ToBytes(units)[2 * i + 1] == units[i] / 256
  {
    if i > 0 {
      BytesAt(units[1..], i - 1);
      assert ToBytes(units)[2 * i] == ToBytes(units[1..])[2 * (i - 1)];
      assert ToBytes(units)[2 * i + 1] == ToBytes(units[1..])[2 * (i - 1) + 1];
    }
  }

  /** The chunk as 16-bit units, unless its length is odd. */
  function Chunk16(m: AuxStreamMessage): Option<seq<u16>>
    requires WellFormed(m)
  {
    if m.chunkLen % 2 != 0 then None else Some(ToUnits(m.chunk[..m.chunkLen]))
  }

  // ----- building

  const UNITS_PER_MESSAGE: nat := CHUNK_SIZE / 2

  function ChunkEnd(units: seq<u16>): nat { if |units| < UNITS_PER_MESSAGE then |units| else UNITS_PER_MESSAGE }

  /** `chunks`: pieces of full length, the last one possibly shorter; none for no units. */
  function Chunks(units: seq<u16>): (r: seq<seq<u16>>)
    ensures units != [] ==> r != []
    ensures forall c :: c in r ==> 0 < |c| <= UNITS_PER_MESSAGE
    decreases |units|
  {
    if units == [] then [] else [units[..ChunkEnd(units)]] + Chunks(units[ChunkEnd(units)..])
  }

  function ChunkStop(n: nat, i: nat): nat { if 256 * i + 256 < n then 256 * i + 256 else n }

  /** As few chunks as possible. */
  lemma {:induction false} ChunksCount(units: seq<u16>)
    ensures |Chunks(units)| == (|units| + 255) / 256
    decreases |units|
  {
    if units != [] { ChunksCount(units[ChunkEnd(units)..]); }
  }

  lemma ChunkStopShift(n: nat, i: nat)
    requires n >= 256 && i > 0
    ensures ChunkStop(n - 256, i - 1) + 256 == ChunkStop(n, i)
  {
  }

  /** All chunks but the last have 256 units, which is 512 bytes. */
  lemma {:induction false} ChunksAt(units: seq<u16>, i: nat)
    requires i < |Chunks(units)|
    ensures 256 * i <= ChunkStop(|units|, i) && Chunks(units)[i] == units[256 * i..ChunkStop(|units|, i)]
    decreases |units|
  {
    var n := ChunkEnd(units);
    var first, rest := units[..n], units[n..];
    assert Chunks(units) == [first] + Chunks(rest);
    if i > 0 {
      assert n == 256 by { assert rest != []; }
      ChunksAt(rest, i - 1);
      ChunkStopShift(|units|, i);
      DropThenSlice(units, 256, 256 * (i - 1), ChunkStop(|rest|, i - 1));
      assert ([first] + Chunks(rest))[i] == Chunks(rest)[i - 1];
    }
  }

  lemma DropThenSlice(s: seq<u16>, n: nat, lo: nat, hi: nat)
    requires n <= |s| && lo <= hi <= |s| - n
    ensures s[n..][lo..hi] == s[n + lo..n + hi]
  {
  }

  function MessageFor(t: AuxStreamType, chunks: seq<seq<u16>>, i: nat): (m: AuxStreamMessage)
    requires i < |chunks| && |chunks[i]| <= UNITS_PER_MESSAGE
    ensures WellFormed(m) && m.streamType == t && m.msgsLeft == |chunks| - i - 1
    ensures Chunk16(m) == Some(chunks[i])
  {
    UnitsOfBytes(chunks[i]);
    NewMessage(t, ToBytes(chunks[i]), Some(|chunks| - i - 1))
  }

  function MessagesFor(t: AuxStreamType, chunks: seq<seq<u16>>): (r: seq<AuxStreamMessage>)
    requires forall c :: c in chunks ==> |c| <= UNITS_PER_MESSAGE
    ensures |r| == |chunks|
    ensures forall i :: 0 <= i < |r| ==> chunks[i] in chunks && r[i] == MessageFor(t, chunks, i)
  {
    seq(|chunks|, i requires 0 <= i < |chunks| => MessageFor(t, chunks, i))
  }

  function Built(t: AuxStreamType, s: seq<Scalar>): seq<AuxStreamMessage> {
    MessagesFor(t, Chunks(EncodeUtf16(s)))
  }

  method BuildStr(t: AuxStreamType, s: seq<Scalar>) returns (msgs: seq<AuxStreamMessage>)
    ensures msgs == Built(t, s)
    ensures msgs == [] <==> s == []
  {
    msgs := BuildMessages(t, Chunks(EncodeUtf16(s)));
  }

  method BuildMessages(t: AuxStreamType, chunks: seq<seq<u16>>) returns (msgs: seq<AuxStreamMessage>)
    requires forall c :: c in chunks ==> |c| <= UNITS_PER_MESSAGE
    ensures msgs == MessagesFor(t, chunks)
  {
    msgs := [];
    for i := 0 to |chunks|
      invariant msgs == MessagesFor(t, chunks)[..i]
    {
      assert chunks[i] in chunks && MessagesFor(t, chunks)[i] == MessageFor(t, chunks, i);
      msgs := msgs + [MessageFor(t, chunks, i)];
    }
  }

  // ----- assembling

  datatype Outcome = More | Done(t: AuxStreamType, s: seq<Scalar>) | TypeMismatch | OddLength

  ghost predicate AllWellFormed(buffer: seq<AuxStreamMessage>) {
    forall i :: 0 <= i < |buffer| ==> WellFormed(buffer[i])
  }

  /** Units of all buffered messages, unless one of them has an odd length. */
  function Gathered(buffer: seq<AuxStreamMessage>): Option<seq<u16>>
    requires forall i :: 0 <= i < |buffer| ==> WellFormed(buffer[i])
  {
    if buffer == [] then Some([])
    else
      var init := Gathered(buffer[..|buffer| - 1]);
      var last := Chunk16(buffer[|buffer| - 1]);
      if init.None? || last.None? then None else Some(init.value + last.value)
  }

  /** Outcome of processing a message, and the buffer afterwards. */
  function Processed(buffer: seq<AuxStreamMessage>, msg: AuxStreamMessage): (r: (Outcome, seq<AuxStreamMessage>))
    requires (forall i :: 0 <= i < |buffer| ==> WellFormed(buffer[i])) && WellFormed(msg)
    ensures forall i :: 0 <= i < |r.1| ==> WellFormed(r.1[i])
  {
    if buffer != [] && buffer[|buffer| - 1].streamType != msg.streamType then (TypeMismatch, [])
    else
      var all := buffer + [msg];
      if msg.msgsLeft != 0 then (More, all)
      else
        var units := Gathered(all);
        (if units.None? then OddLength else Done(msg.streamType, DecodeLossy(units.value)), [])
  }

  class AuxStreamAssembler {
    var messageBuffer: seq<AuxStreamMessage>

    constructor ()
      ensures messageBuffer == []
    {
      messageBuffer := [];
    }

    method Reset()
      modifies this
      ensures messageBuffer == []
    {
      messageBuffer := [];
    }

    method ProcessStrMsg(msg: AuxStreamMessage) returns (r: Outcome)
      requires AllWellFormed(messageBuffer) && WellFormed(msg)
      modifies this
      ensures AllWellFormed(messageBuffer)
      ensures (r, messageBuffer) == Processed(old(messageBuffer), msg)
    {
      if |messageBuffer| > 0 && messageBuffer[|messageBuffer| - 1].streamType != msg.streamType {
        Reset();
        return TypeMismatch;
      }
      messageBuffer := messageBuffer + [msg];
      if msg.msgsLeft == 0 {
        var utf16Values := Gather(messageBuffer);
        Reset();
        return if utf16Values.None? then OddLength else Done(msg.streamType, DecodeLossy(utf16Values.value));
      }
      return More;
    }
  }

  /** The loop over the buffered messages; `None` is the error on one of odd length. */
  method Gather(buffer: seq<AuxStreamMessage>) returns (r: Option<seq<u16>>)
    requires AllWellFormed(buffer)
    ensures r == Gathered(buffer)
  {
    var utf16Values: seq<u16> := [];
    for i := 0 to |buffer|
      invariant Gathered(buffer[..i]) == Some(utf16Values)
    {
      assert buffer[..i + 1][..i] == buffer[..i];
      var payload := Chunk16(buffer[i]);
      if payload.None? {
        OddSpoilsAll(buffer, i);
        return None;
      }
      utf16Values := utf16Values + payload.value;
    }
    assert buffer[..|buffer|] == buffer;
    r := Some(utf16Values);
  }

  lemma {:induction false} OddSpoilsAll(buffer: seq<AuxStreamMessage>, i: nat)
    requires AllWellFormed(buffer) && i < |buffer| && Chunk16(buffer[i]).None?
    ensures Gathered(buffer).None?
    decreases |buffer|
  {
    if i < |buffer| - 1 { OddSpoilsAll(buffer[..|buffer| - 1], i); }
  }

  // ----- round trip

  /** The four outcomes: a change of type is an error; otherwise a message that announces more is kept; the last
      one is an error if any message has an odd length and delivers otherwise. Except for the kept
      message, the buffer is empty afterwards. */
  lemma {:induction false} ProcessedOutcome(buffer: seq<AuxStreamMessage>, msg: AuxStreamMessage)
    requires AllWellFormed(buffer) && WellFormed(msg)
    ensures var (r, after) := Processed(buffer, msg); var all := buffer + [msg];
            var changed := buffer != [] && buffer[|buffer| - 1].streamType != msg.streamType;
            && (r == TypeMismatch <==> changed)
            && (r == More <==> !changed && msg.msgsLeft > 0)
            && (r == OddLength <==> !changed && msg.msgsLeft == 0 && exists i :: 0 <= i < |all| && all[i].chunkLen % 2 == 1)
            && (r.Done? ==> r.t == msg.streamType)
            && after == if r == More then all else []
  {
    var all := buffer + [msg];
    assert AllWellFormed(all);
    GatheredIffEven(all);
  }

  lemma {:induction false} GatheredIffEven(buffer: seq<AuxStreamMessage>)
    requires AllWellFormed(buffer)
    ensures Gathered(buffer).None? <==> exists i :: 0 <= i < |buffer| && buffer[i].chunkLen % 2 == 1
  {
    if buffer != [] {
      var init := buffer[..|buffer| - 1];
      GatheredIffEven(init);
      if i :| 0 <= i < |init| && init[i].chunkLen % 2 == 1 { assert buffer[i].chunkLen % 2 == 1; }
      if i :| 0 <= i < |buffer| && buffer[i].chunkLen % 2 == 1 {
        if i < |init| { assert init[i].chunkLen % 2 == 1; }
      }
    }
  }

  /** Outcomes of feeding messages one after the other, and the final buffer. */
  function Fed(buffer: seq<AuxStreamMessage>, msgs: seq<AuxStreamMessage>): (r: (seq<Outcome>, seq<AuxStreamMessage>))
    requires (forall i :: 0 <= i < |buffer| ==> WellFormed(buffer[i])) && (forall i :: 0 <= i < |msgs| ==> WellFormed(msgs[i]))
    ensures |r.0| == |msgs| && forall i :: 0 <= i < |r.1| ==> WellFormed(r.1[i])
    decreases |msgs|
  {
    if msgs == [] then ([], buffer)
    else
      var p := Processed(buffer, msgs[0]);
      var rest := Fed(p.1, msgs[1..]);
      ([p.0] + rest.0, rest.1)
  }

  lemma {:induction false} FedAppend(buffer: seq<AuxStreamMessage>, a: seq<AuxStreamMessage>, b: seq<AuxStreamMessage>)
    requires AllWellFormed(buffer) && AllWellFormed(a) && AllWellFormed(b) && AllWellFormed(a + b)
    ensures var fa := Fed(buffer, a); var fb := Fed(fa.1, b);
            Fed(buffer, a + b) == (fa.0 + fb.0, fb.1)
    decreases |a|
  {
    if a == [] {
      assert a + b == b;
      assert [] + Fed(buffer, b).0 == Fed(buffer, b).0;
    } else {
      assert (a + b)[1..] == a[1..] + b && AllWellFormed(a[1..]);
      var p := Processed(buffer, a[0]);
      FedAppend(p.1, a[1..], b);
      var fa := Fed(p.1, a[1..]);
      var fb := Fed(fa.1, b);
      assert [p.0] + (fa.0 + fb.0) == ([p.0] + fa.0) + fb.0;
    }
  }

  function Joined(chunks: seq<seq<u16>>): seq<u16> {
    if chunks == [] then [] else Joined(chunks[..|chunks| - 1]) + chunks[|chunks| - 1]
  }

  lemma {:induction false} JoinedCons(c: seq<u16>, chunks: seq<seq<u16>>)
    ensures Joined([c] + chunks) == c + Joined(chunks)
  {
    if chunks == [] {
      assert [c] + chunks == [c] && [c][..0] == [];
    } else {
      var init := chunks[..|chunks| - 1];
      assert ([c] + chunks)[..|chunks|] == [c] + init;
      JoinedCons(c, init);
    }
  }

  lemma ChunksCons(units: seq<u16>)
    requires units != []
    ensures var n := ChunkEnd(units);
            Chunks(units) == [units[..n]] + Chunks(units[n..]) && units[..n] + units[n..] == units
  {
  }

  /** Cutting into chunks loses nothing. */
  lemma {:induction false} JoinedChunks(units: seq<u16>)
    ensures Joined(Chunks(units)) == units
    decreases |units|
  {
    if units != [] {
      var n := ChunkEnd(units);
      ChunksCons(units);
      JoinedChunks(units[n..]);
      JoinedCons(units[..n], Chunks(units[n..]));
    }
  }

  /** The messages carry the chunks in order and count down to zero. */
  ghost predicate Carries(msgs: seq<AuxStreamMessage>, t: AuxStreamType, chunks: seq<seq<u16>>) {
    && |msgs| == |chunks| && AllWellFormed(msgs)
    && (forall i :: 0 <= i < |msgs| ==> msgs[i].streamType == t && msgs[i].msgsLeft == |msgs| - i - 1)
    && (forall i :: 0 <= i < |msgs| ==> Chunk16(msgs[i]) == Some(chunks[i]))
  }

  lemma {:induction false} GatheredPrefix(msgs: seq<AuxStreamMessage>, t: AuxStreamType, chunks: seq<seq<u16>>, n: nat)
    requires Carries(msgs, t, chunks) && n <= |chunks|
    ensures Gathered(msgs[..n]) == Some(Joined(chunks[..n]))
    decreases n
  {
    if n > 0 {
      GatheredPrefix(msgs, t, chunks, n - 1);
      assert msgs[..n][..n - 1] == msgs[..n - 1];
      assert chunks[..n][..n - 1] == chunks[..n - 1];
    }
  }

  /** Outcome of message number `n` when those before it are in the buffer. */
  lemma ProcessedAt(msgs: seq<AuxStreamMessage>, t: AuxStreamType, chunks: seq<seq<u16>>, n: nat)
    requires Carries(msgs, t, chunks) && n < |chunks|
    ensures Processed(msgs[..n], msgs[n])
         == if n + 1 < |msgs| then (More, msgs[..n + 1]) else (Done(t, DecodeLossy(Joined(chunks))), [])
  {
    assert msgs[..n] + [msgs[n]] == msgs[..n + 1];
    if n + 1 == |msgs| {
      GatheredPrefix(msgs, t, chunks, n + 1);
      assert chunks[..n + 1] == chunks;
    }
  }

  /** What the messages from number `n` on produce when those before are in the buffer. */
  lemma {:induction false} FedFrom(msgs: seq<AuxStreamMessage>, t: AuxStreamType, chunks: seq<seq<u16>>, n: nat)
    requires Carries(msgs, t, chunks) && n < |chunks|
    ensures Fed(msgs[..n], msgs[n..])
         == (seq(|msgs| - n - 1, _ => More) + [Done(t, DecodeLossy(Joined(chunks)))], [])
    decreases |chunks| - n
  {
    assert msgs[n..][0] == msgs[n] && msgs[n..][1..] == msgs[n + 1..];
    ProcessedAt(msgs, t, chunks, n);
    if n + 1 < |chunks| {
      FedFrom(msgs, t, chunks, n + 1);
      MoreFirst(|msgs| - n - 1, Done(t, DecodeLossy(Joined(chunks))));
    } else {
      var last := Done(t, DecodeLossy(Joined(chunks)));
      assert msgs[n + 1..] == [];
      assert [last] + [] == [last] == seq(0, _ => More) + [last];
    }
  }

  lemma MoreFirst(k: nat, last: Outcome)
    requires k > 0
    ensures [More] + (seq(k - 1, _ => More) + [last]) == seq(k, _ => More) + [last]
  {
  }

  /** For every non-empty string, wherever the chunk boundaries fall: all messages but the last ask for more, the
      last one gives back the string, and the assembler is empty again. */
  lemma {:induction false} RoundTrip(t: AuxStreamType, s: seq<Scalar>)
    requires s != []
    ensures var msgs := Built(t, s);
            && msgs != []
            && Fed([], msgs) == (seq(|msgs| - 1, _ => More) + [Done(t, s)], [])
  {
    var chunks := Chunks(EncodeUtf16(s));
    var msgs := MessagesFor(t, chunks);
    assert Carries(msgs, t, chunks);
    FedFrom(msgs, t, chunks, 0);
    assert msgs[..0] == [] && msgs[0..] == msgs;
    JoinedChunks(EncodeUtf16(s));
    DecodeEncode(s);
  }

  /** A string and the type of the stream it is sent as. */
  datatype Record = Record(t: AuxStreamType, s: seq<Scalar>)

  function AllBuilt(records: seq<Record>): (r: seq<AuxStreamMessage>)
    ensures forall i :: 0 <= i < |r| ==> WellFormed(r[i])
  {
    if records == [] then [] else Built(records[0].t, records[0].s) + AllBuilt(records[1..])
  }

  /** Nothing is sent for an empty string. */
  function Sent(records: seq<Record>): seq<Record> {
    if records == [] then [] else (if records[0].s == [] then [] else [records[0]]) + Sent(records[1..])
  }

  /** The strings that came out, in order, each with its type. */
  function Delivered(r: seq<Outcome>): seq<Record> {
    if r == [] then [] else (if r[0].Done? then [Record(r[0].t, r[0].s)] else []) + Delivered(r[1..])
  }

  lemma {:induction false} DeliveredAppend(a: seq<Outcome>, b: seq<Outcome>)
    ensures Delivered(a + b) == Delivered(a) + Delivered(b)
  {
    if a == [] {
      assert a + b == b;
    } else {
      assert (a + b)[1..] == a[1..] + b;
      DeliveredAppend(a[1..], b);
      Associative(if a[0].Done? then [Record(a[0].t, a[0].s)] else [], Delivered(a[1..]), Delivered(b));
    }
  }

  lemma {:induction false} DeliveredMore(k: nat, t: AuxStreamType, s: seq<Scalar>)
    ensures Delivered(seq(k, _ => More) + [Done(t, s)]) == [Record(t, s)]
  {
    if k == 0 {
      assert seq(k, _ => More) + [Done(t, s)] == [Done(t, s)];
    } else {
      MoreFirst(k, Done(t, s));
      DeliveredMore(k - 1, t, s);
      var r := seq(k, _ => More) + [Done(t, s)];
      assert r[1..] == seq(k - 1, _ => More) + [Done(t, s)];
    }
  }

  lemma {:induction false} StreamInFront(t: AuxStreamType, s: seq<Scalar>, rest: seq<AuxStreamMessage>)
    requires s != [] && AllWellFormed(rest) && AllWellFormed(Built(t, s) + rest)
    ensures var f, r := Fed([], Built(t, s) + rest), Fed([], rest);
            Delivered(f.0) == [Record(t, s)] + Delivered(r.0) && f.1 == r.1
  {
    var msgs := Built(t, s);
    RoundTrip(t, s);
    FedAppend([], msgs, rest);
    DeliveredMore(|msgs| - 1, t, s);
    DeliveredAppend(Fed([], msgs).0, Fed([], rest).0);
  }

  /** Streams of any types sent back to back decode one after the other. */
  lemma {:induction false} StreamsInSequence(records: seq<Record>)
    ensures Delivered(Fed([], AllBuilt(records)).0) == Sent(records)
    ensures Fed([], AllBuilt(records)).1 == []
  {
    if records != [] {
      var first, rest := records[0], records[1..];
      StreamsInSequence(rest);
      if first.s == [] {
        assert Built(first.t, first.s) == [] && [] + AllBuilt(rest) == AllBuilt(rest) && [] + Sent(rest) == Sent(rest);
      } else {
        StreamInFront(first.t, first.s, AllBuilt(rest));
      }
    }
  }
}
