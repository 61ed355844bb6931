/** The CoLa2 protocol session handler (`CoLa2ProtocolHandler`).

    Every outbound frame starts with a 16-byte header:
      bytes 0..3   magic, four 0x02 bytes
      bytes 4..7   big-endian length of everything after byte 7
      byte  8      hub counter, 0
      byte  9      number of chunks, 0
      bytes 10..13 big-endian session id
      bytes 14..15 big-endian request id
    The handler keeps a 16-bit request counter, incremented before every
    header, and the 32-bit session id that the open-session handshake
    receives from the device. `Send` strips the leading 's' of a CoLa
    command, frames it, and turns the device's reply back into a command
    that starts with 's'. */
module CoLa2 {
  import opened Bytes
  import opened Wrappers
  import opened Transport

  const MagicByte: u8 := 0x02
  const Magic: seq<u8> := [0x02, 0x02, 0x02, 0x02]
  /** The leading 's' of a CoLa command buffer. */
  const SMarker: u8 := 0x73
  const HeaderSize: nat := 16

  /** The result of `send`: the response command's byte buffer, or the
      distinguished `networkErrorCommand`. */
  datatype CoLaCommand = Command(buffer: seq<u8>) | NetworkErrorCommand

  // ---------------------------------------------------------------------
  // Request ids

  /** `++m_ReqID` on a `uint16_t`. */
  function NextReqId(id: u16): (next: u16)
    ensures id < 0xFFFF ==> next as int == id as int + 1
    ensures id == 0xFFFF ==> next == 0
  {
    ((id as int + 1) % 0x1_0000) as u16
  }

  /** The counter after `n` headers, starting from `start`. */
  function ReqIdAfter(start: u16, n: nat): (id: u16)
  {
    if n == 0 then start else NextReqId(ReqIdAfter(start, n - 1))
  }

  /** Starting from the constructor's 0, the n-th header carries n modulo
      2^16: the first carries 1, and 65536 headers later the id is 0 again. */
  lemma {:induction false} ReqIdCountsHeaders(n: nat)
    ensures ReqIdAfter(0, n) as int == n % 0x1_0000
  {
    if n > 0 {
      ReqIdCountsHeaders(n - 1);
      var q, r := (n - 1) / 0x1_0000, (n - 1) % 0x1_0000;
      if r == 0xFFFF {
        ModOfMultiple(n, q + 1, 0);
      } else {
        ModOfMultiple(n, q, r + 1);
      }
    }
  }

  /** The remainder is unique: `q * 2^16 + r` with `0 <= r < 2^16` leaves `r`. */
  lemma ModOfMultiple(n: int, q: int, r: int)
    requires 0 <= r < 0x1_0000 && n == q * 0x1_0000 + r
    ensures n % 0x1_0000 == r
  {
  }

  // ---------------------------------------------------------------------
  // Outbound frames

  /** What `createCoLa2Header` returns: eight magic bytes (the last four are
      the placeholder of the length field), hub counter and number of chunks
      0, then the session id and the request id. */
  function Header(sessionId: u32, reqId: u16): (h: seq<u8>)
    ensures |h| == HeaderSize
  {
    [MagicByte, MagicByte, MagicByte, MagicByte, MagicByte, MagicByte, MagicByte, MagicByte, 0, 0]
      + EncodeBE32(sessionId) + EncodeBE16(reqId)
  }

  /** Overwrites bytes 4..7 with the big-endian `size - 8`, computed as the
      source does in `uint32_t`. */
  function PatchLength(buf: seq<u8>): (r: seq<u8>)
    requires |buf| >= 8
    ensures |r| == |buf|
  {
    Overwrite(buf, 4, EncodeBE32(Wrap32(|buf| - 8)))
  }

  /** The frame `send` writes for the command buffer `cmd`. */
  function Frame(sessionId: u32, reqId: u16, cmd: seq<u8>): (f: seq<u8>)
    requires |cmd| >= 1
    ensures |f| == 15 + |cmd|
    ensures f[..4] == Magic && f[16..] == cmd[1..]
  {
    PatchLength(Header(sessionId, reqId) + cmd[1..])
  }

  /** 'O' 'x', the timeout in seconds, then the flex string 0 2 'E' 'x'. */
  function OpenSessionPayload(sessionTimeout: u8): (p: seq<u8>)
  {
    [0x4F, 0x78, sessionTimeout, 0x00, 0x02, 0x45, 0x78]
  }

  /** The frame `openSession` writes. */
  function OpenSessionFrame(sessionId: u32, reqId: u16, sessionTimeout: u8): (f: seq<u8>)
    ensures |f| == 23
    ensures f[..4] == Magic && f[16..] == OpenSessionPayload(sessionTimeout)
  {
    PatchLength(Header(sessionId, reqId) + OpenSessionPayload(sessionTimeout))
  }

  /** The fields of a frame as the device reads them. */
  datatype FrameFields = FrameFields(length: u32, hubCounter: u8, chunks: u8,
                                     sessionId: u32, reqId: u16, payload: seq<u8>)

  /** Reads a frame back: `None` unless it has a whole header with the magic. */
  function ParseFrame(f: seq<u8>): (r: Option<FrameFields>)
  {
    if |f| < HeaderSize || f[..4] != Magic then None
    else Some(FrameFields(DecodeBE32(f[4..8]), f[8], f[9], DecodeBE32(f[10..14]), DecodeBE16(f[14..16]), f[16..]))
  }

  /** Every header is magic, length placeholder, two zero bytes, then the
      session id and the request id in big-endian order. */
  lemma HeaderLayout(sessionId: u32, reqId: u16)
    ensures var h := Header(sessionId, reqId);
      && h[..4] == Magic && h[4..8] == Magic
      && h[8] == 0 && h[9] == 0
      && DecodeBE32(h[10..14]) == sessionId
      && DecodeBE16(h[14..16]) == reqId
  {
    var h := Header(sessionId, reqId);
    assert h[10..14] == EncodeBE32(sessionId);
    assert h[14..16] == EncodeBE16(reqId);
    BE32RoundTrip(sessionId);
    BE16RoundTrip(reqId);
  }

  /** Patching the length keeps every byte but 4..7 and stores `size - 8`. */
  lemma PatchLengthFields(buf: seq<u8>)
    requires |buf| >= 8
    ensures var r := PatchLength(buf);
      && r[..4] == buf[..4] && r[8..] == buf[8..]
      && DecodeBE32(r[4..8]) == Wrap32(|buf| - 8)
  {
    BE32RoundTrip(Wrap32(|buf| - 8));
  }

  /** A frame is 15 + |cmd| bytes, parses back to the session id, request id
      and the command without its 's', carries no checksum byte, and its
      length field is the frame size minus 8. */
  lemma FrameRoundTrip(sessionId: u32, reqId: u16, cmd: seq<u8>)
    requires |cmd| >= 1
    ensures |Frame(sessionId, reqId, cmd)| == 15 + |cmd|
    ensures ParseFrame(Frame(sessionId, reqId, cmd))
         == Some(FrameFields(Wrap32(|cmd| + 7), 0, 0, sessionId, reqId, cmd[1..]))
    ensures |cmd| + 7 < 0x1_0000_0000 ==>
              DecodeBE32(Frame(sessionId, reqId, cmd)[4..8]) as int == |Frame(sessionId, reqId, cmd)| - 8
  {
    var buf := Header(sessionId, reqId) + cmd[1..];
    var f := Frame(sessionId, reqId, cmd);
    HeaderLayout(sessionId, reqId);
    PatchLengthFields(buf);
    assert f[..4] == buf[..4] == Magic;
    assert f[8..][..8] == f[8..16] && buf[8..][..8] == buf[8..16];
    assert f[10..14] == buf[10..14] && f[14..16] == buf[14..16];
    assert f[16..] == buf[16..] == cmd[1..];
  }

  /** The open-session frame is 23 bytes, its length field is 15 and it
      carries the current session id and the timeout byte. */
  lemma OpenSessionFrameRoundTrip(sessionId: u32, reqId: u16, sessionTimeout: u8)
    ensures |OpenSessionFrame(sessionId, reqId, sessionTimeout)| == 23
    ensures ParseFrame(OpenSessionFrame(sessionId, reqId, sessionTimeout))
         == Some(FrameFields(15, 0, 0, sessionId, reqId, OpenSessionPayload(sessionTimeout)))
  {
    var buf := Header(sessionId, reqId) + OpenSessionPayload(sessionTimeout);
    var f := OpenSessionFrame(sessionId, reqId, sessionTimeout);
    HeaderLayout(sessionId, reqId);
    PatchLengthFields(buf);
    assert f[..4] == buf[..4] == Magic;
    assert f[8..][..8] == f[8..16] && buf[8..][..8] == buf[8..16];
    assert f[10..14] == buf[10..14] && f[14..16] == buf[14..16];
    assert f[16..] == buf[16..] == OpenSessionPayload(sessionTimeout);
  }

  // ---------------------------------------------------------------------
  // Inbound replies

  /** A reply as the device writes it: magic, big-endian body length, body. */
  function ReplyFrame(body: seq<u8>): (r: seq<u8>)
    requires |body| < 0x1_0000_0000
    ensures |r| == 8 + |body|
  {
    Magic + EncodeBE32(|body| as u32) + body
  }

  /** The command `send` builds from a reply body of the announced length:
      the 8 echoed header bytes are dropped when the body is longer than 8,
      and the 's' is put back in front. */
  function Unwrap(body: seq<u8>): (c: seq<u8>)
    ensures 1 <= |c| <= |body| + 1 && c[0] == SMarker
    ensures c[1..] == body[|body| - (|c| - 1)..]
    ensures |body| > 8 ==> |c| == |body| - 7
  {
    [SMarker] + (if |body| > 8 then body[8..] else body)
  }

  /** What `send` makes of the bytes the transport still holds, once the
      frame is written, with the bytes it leaves unread. A stream that runs
      dry is a network error; a wrong magic is an empty command, read no
      further. */
  function ReceiveResponse(input: seq<u8>): (r: (CoLaCommand, seq<u8>))
    ensures |r.1| <= |input| && r.1 == input[|input| - |r.1|..]
    ensures r.0 == NetworkErrorCommand ==> r.1 == []
    ensures r.0 == NetworkErrorCommand <==>
              |input| < 4 || (input[..4] == Magic && (|input| < 8 || |input| < 8 + DecodeBE32(input[4..8]) as int))
    ensures r.0 == Command([]) <==> |input| >= 4 && input[..4] != Magic
    ensures r.0.Command? && r.0.buffer != [] ==> r.0.buffer[0] == SMarker
  {
    if |input| < 4 then (NetworkErrorCommand, [])
    else if input[..4] != Magic then (Command([]), input[4..])
    else if |input| < 8 then (NetworkErrorCommand, [])
    else
      var length := DecodeBE32(input[4..8]) as nat;
      if |input| < 8 + length then (NetworkErrorCommand, [])
      else (Command(Unwrap(input[8..8 + length])), input[8 + length..])
  }

  /** A whole reply is consumed exactly and its body unwrapped. */
  lemma ResponseRoundTrip(body: seq<u8>, rest: seq<u8>)
    requires |body| < 0x1_0000_0000
    ensures ReceiveResponse(ReplyFrame(body) + rest) == (Command(Unwrap(body)), rest)
  {
    var input := ReplyFrame(body) + rest;
    assert input[..4] == Magic;
    assert input[4..8] == EncodeBE32(|body| as u32);
    BE32RoundTrip(|body| as u32);
    assert input[8..8 + |body|] == body;
    assert input[8 + |body|..] == rest;
  }

  /** A device reply that echoes 8 header bytes before a non-empty payload
      comes back as 's' followed by exactly that payload. */
  lemma EchoedReplyRoundTrip(echo: seq<u8>, payload: seq<u8>, rest: seq<u8>)
    requires |echo| == 8 && 1 <= |payload| < 0x1_0000_0000 - 8
    ensures ReceiveResponse(ReplyFrame(echo + payload) + rest) == (Command([SMarker] + payload), rest)
  {
    ResponseRoundTrip(echo + payload, rest);
    assert (echo + payload)[8..] == payload;
  }

  /** A body of 8 bytes or fewer is passed up whole behind the 's'. */
  lemma ShortBodyKept(body: seq<u8>, rest: seq<u8>)
    requires |body| <= 8
    ensures ReceiveResponse(ReplyFrame(body) + rest) == (Command([SMarker] + body), rest)
  {
    ResponseRoundTrip(body, rest);
  }

  /** Any reply cut short by the stream is a network error, never a command. */
  lemma TruncatedReplyIsNetworkError(body: seq<u8>, k: nat)
    requires |body| < 0x1_0000_0000
    requires k < |ReplyFrame(body)|
    ensures ReceiveResponse(ReplyFrame(body)[..k]).0 == NetworkErrorCommand
  {
    var r := ReplyFrame(body);
    var input := r[..k];
    assert r[..4] == Magic && r[4..8] == EncodeBE32(|body| as u32);
    if k >= 8 {
      assert input[..4] == r[..4] && input[4..8] == r[4..8];
      BE32RoundTrip(|body| as u32);
    } else if k >= 4 {
      assert input[..4] == r[..4];
    }
  }

  /** A reply whose first four bytes are not the magic is a protocol desync:
      an empty command, distinct from a network error, and nothing past those
      four bytes is read. */
  lemma MagicMismatchIsNotNetworkError(input: seq<u8>)
    requires |input| >= 4 && input[..4] != Magic
    ensures ReceiveResponse(input) == (Command([]), input[4..])
    ensures ReceiveResponse(input).0 != NetworkErrorCommand
  {
  }

  // ---------------------------------------------------------------------
  // The open-session handshake

  /** What `openSession` makes of the bytes the transport holds: the session
      id the device assigned, if the handshake succeeds, and the bytes left
      unread. The session id is the big-endian u32 at offset 2 of the body;
      a body shorter than 6 bytes cannot hold it and fails (see the
      findings: the source accepts bodies of 4 and 5 bytes). */
  function OpenSessionReply(input: seq<u8>): (r: (Option<u32>, seq<u8>))
    ensures |r.1| <= |input| && r.1 == input[|input| - |r.1|..]
    ensures r.0.Some? ==> |input| >= 14 && input[..4] == Magic && r.0.value == DecodeBE32(input[10..14])
  {
    if |input| < 4 then (None, [])
    else if input[..4] != Magic then (None, input[4..])
    else if |input| < 8 then (None, [])
    else
      var length := DecodeBE32(input[4..8]) as nat;
      if length < 4 then (None, input[8..])
      else if |input| < 8 + length then (None, [])
      else if length < 6 then (None, input[8 + length..])
      else (Some(DecodeBE32(input[10..14])), input[8 + length..])
  }

  /** A device's open-session reply: a 2-byte response tag, the session id,
      and anything after it. */
  function SessionReplyFrame(tag: seq<u8>, sessionId: u32, extra: seq<u8>): (r: seq<u8>)
    requires |tag| == 2 && |extra| < 0x1_0000_0000 - 6
  {
    ReplyFrame(tag + EncodeBE32(sessionId) + extra)
  }

  /** The handshake recovers the session id the device sent and consumes
      exactly its reply. */
  lemma OpenSessionRoundTrip(tag: seq<u8>, sessionId: u32, extra: seq<u8>, rest: seq<u8>)
    requires |tag| == 2 && |extra| < 0x1_0000_0000 - 6
    ensures OpenSessionReply(SessionReplyFrame(tag, sessionId, extra) + rest) == (Some(sessionId), rest)
  {
    var body := tag + EncodeBE32(sessionId) + extra;
    var input := SessionReplyFrame(tag, sessionId, extra) + rest;
    assert input[..4] == Magic;
    assert input[4..8] == EncodeBE32(|body| as u32);
    BE32RoundTrip(|body| as u32);
    assert input[10..14] == EncodeBE32(sessionId);
    BE32RoundTrip(sessionId);
    assert input[8 + |body|..] == rest;
  }

  /** The failure cases of the handshake, each of which leaves the session id
      alone: short magic read, wrong magic, short length read, length below
      4, short body read, and a body too short for the id. */
  lemma OpenSessionFailures(input: seq<u8>)
    ensures |input| < 4 ==> OpenSessionReply(input).0 == None
    ensures |input| >= 4 && input[..4] != Magic ==> OpenSessionReply(input).0 == None
    ensures |input| < 8 ==> OpenSessionReply(input).0 == None
    ensures |input| >= 8 && DecodeBE32(input[4..8]) < 6 ==> OpenSessionReply(input).0 == None
    ensures |input| >= 8 && |input| < 8 + DecodeBE32(input[4..8]) as int ==> OpenSessionReply(input).0 == None
  {
  }

  /** Any open-session reply cut short by the stream fails. */
  lemma TruncatedSessionReplyFails(tag: seq<u8>, sessionId: u32, extra: seq<u8>, k: nat)
    requires |tag| == 2 && |extra| < 0x1_0000_0000 - 6
    requires k < |SessionReplyFrame(tag, sessionId, extra)|
    ensures OpenSessionReply(SessionReplyFrame(tag, sessionId, extra)[..k]).0 == None
  {
    var body := tag + EncodeBE32(sessionId) + extra;
    var r := SessionReplyFrame(tag, sessionId, extra);
    assert r == ReplyFrame(body);
    assert r[..4] == Magic && r[4..8] == EncodeBE32(|body| as u32);
    var input := r[..k];
    if k >= 8 {
      assert input[..4] == r[..4] && input[4..8] == r[4..8];
      BE32RoundTrip(|body| as u32);
    } else if k >= 4 {
      assert input[..4] == r[..4];
    }
  }

  /** The acceptance test of the source as written (lines 78-84 of
      CoLa2ProtocolHandler.cpp): magic, a length of at least 4, and a whole
      body of that length. */
  predicate AcceptsSessionReplyAsWritten(input: seq<u8>)
  {
    && |input| >= 8 && input[..4] == Magic
    && DecodeBE32(input[4..8]) >= 4
    && |input| >= 8 + DecodeBE32(input[4..8]) as int
  }

  /** The source accepts a reply whose body is 4 bytes, yet reads the session
      id from body bytes 2..5, two of which lie past the body. */
  lemma AsWrittenReadsPastBody()
    ensures var input := Magic + EncodeBE32(4) + [0x4F, 0x41, 0x00, 0x00];
      && AcceptsSessionReplyAsWritten(input)
      && 2 + 4 > DecodeBE32(input[4..8]) as int
  {
    var input := Magic + EncodeBE32(4) + [0x4F, 0x41, 0x00, 0x00];
    assert input[..4] == Magic;
    assert input[4..8] == EncodeBE32(4);
    BE32RoundTrip(4);
  }

  /** The corrected handshake succeeds exactly when the source's test passes
      and the body holds all four bytes of the session id, which it then
      reads from inside the body. */
  lemma CorrectedSessionIdWithinBody(input: seq<u8>)
    ensures OpenSessionReply(input).0.Some? <==>
              AcceptsSessionReplyAsWritten(input) && DecodeBE32(input[4..8]) >= 6
    ensures OpenSessionReply(input).0.Some? ==>
              var body := input[8..8 + DecodeBE32(input[4..8]) as int];
              2 + 4 <= |body| && OpenSessionReply(input).0.value == DecodeBE32(body[2..6])
  {
    if OpenSessionReply(input).0.Some? {
      var length := DecodeBE32(input[4..8]) as int;
      assert 6 <= length && 8 + length <= |input|;
      var body := input[8..8 + length];
      assert body[2..6] == input[10..14];
    }
  }

  // ---------------------------------------------------------------------
  // Checksum (defined in the source but used by no frame)

  function Xor(a: u8, b: u8): (x: u8)
  {
    ((a as bv8) ^ (b as bv8)) as int as u8
  }

  /** The XOR of all bytes of `s`, folded from the left. */
  function XorAll(s: seq<u8>): (x: u8)
  {
    if s == [] then 0 else Xor(XorAll(s[..|s| - 1]), s[|s| - 1])
  }

  /** The checksum of a buffer: the XOR of every byte from offset 8 on. */
  function Checksum(buffer: seq<u8>): (c: u8)
  {
    if |buffer| <= 8 then 0 else XorAll(buffer[8..])
  }

  /** Buffers of 8 bytes or fewer have checksum 0. */
  lemma ChecksumOfShortBuffer(buffer: seq<u8>)
    requires |buffer| <= 8
    ensures Checksum(buffer) == 0
  {
  }

  /** Appending a byte XORs it into the checksum. */
  lemma ChecksumAppend(buffer: seq<u8>, b: u8)
    requires |buffer| >= 8
    ensures Checksum(buffer + [b]) == Xor(Checksum(buffer), b)
  {
    assert Checksum(buffer) == XorAll(buffer[8..]);
    var t := (buffer + [b])[8..];
    assert t == buffer[8..] + [b];
    assert t[..|t| - 1] == buffer[8..];
  }

  /** Appending its own checksum to a buffer makes the checksum of the
      result 0. No frame carries the checksum byte (its append in `send` is
      commented out), so this concerns that hypothetical extension: it is
      what a receiver would test if the byte were sent. */
  lemma ChecksumSealsBuffer(buffer: seq<u8>)
    ensures Checksum(buffer + [Checksum(buffer)]) == 0
  {
    if |buffer| >= 8 {
      ChecksumAppend(buffer, Checksum(buffer));
      var c := Checksum(buffer) as bv8;
      assert c ^ c == 0;
    }
  }

  // ---------------------------------------------------------------------
  // The handler

  class CoLa2ProtocolHandler {
    const transport: StreamTransport
    /** `m_ReqID`: the id of the last header built. */
    var reqId: u16
    /** `m_sessionID`: set by a successful `OpenSession`. */
    var sessionId: u32

    constructor (transport: StreamTransport)
      ensures this.transport == transport
      ensures reqId == 0 && sessionId == 0
    {
      this.transport := transport;
      reqId := 0;
      sessionId := 0;
    }

    /** `getReqId`: pre-increment. */
    method GetReqId() returns (id: u16)
      modifies this`reqId
      ensures reqId == NextReqId(old(reqId)) && id == reqId
    {
      reqId := NextReqId(reqId);
      id := reqId;
    }

    /** `createCoLa2Header`: builds the header for the current session id
        and a fresh request id. */
    method CreateCoLa2Header() returns (header: seq<u8>)
      modifies this`reqId
      ensures reqId == NextReqId(old(reqId))
      ensures header == Header(sessionId, reqId)
    {
      header := [];
      for i := 0 to 8
        invariant header == seq(i, _ => MagicByte)
      {
        header := header + [MagicByte];
      }
      header := header + [0];  // hub counter
      header := header + [0];  // number of chunks
      header := header + [0, 0, 0, 0];
      header := Overwrite(header, 10, EncodeBE32(sessionId));
      header := header + [0, 0];
      var id := GetReqId();
      header := Overwrite(header, 14, EncodeBE16(id));
    }

    /** `openSession`: sends the open-session frame, ignoring how much of it
        was written, then reads the reply; on success the session id is the
        one the device sent, otherwise it is unchanged. */
    method OpenSession(sessionTimeout: u8) returns (result: bool)
      modifies this`reqId, this`sessionId, transport`sent, transport`input
      ensures reqId == NextReqId(old(reqId))
      ensures transport.sent == old(transport.sent) + [OpenSessionFrame(old(sessionId), reqId, sessionTimeout)]
      ensures var (id, rest) := OpenSessionReply(old(transport.input));
        && result == id.Some?
        && sessionId == (if id.Some? then id.value else old(sessionId))
        && transport.input == rest
    {
      result := true;
      var buffer := CreateCoLa2Header();
      buffer := buffer + [0x4F];  // 'O'
      buffer := buffer + [0x78];  // 'x'
      buffer := buffer + [sessionTimeout];
      buffer := buffer + [0x00, 0x02, 0x45, 0x78];
      buffer := Overwrite(buffer, 4, EncodeBE32(Wrap32(|buffer| - 8)));
      assert buffer == OpenSessionFrame(sessionId, reqId, sessionTimeout);
      var written := transport.Send(buffer);
      buffer := [];
      ghost var input0 := old(transport.input);

      if result {
        buffer := transport.Read(4);
        if |buffer| < 4 {
          result := false;
        } else {
          result := buffer == Magic;
          assert buffer == input0[..4] && transport.input == input0[4..];
        }
      }
      if result {
        buffer := transport.Read(4);
        if |buffer| < 4 {
          result := false;
        } else {
          assert buffer == input0[4..8] && transport.input == input0[8..];
        }
      }
      if result {
        var length := DecodeBE32(buffer) as nat;
        if length < 4 {
          result := false;
        } else {
          ghost var input2 := transport.input;
          assert input2 == input0[8..];
          buffer := transport.Read(length);
          ghost var bodyRead := |buffer| == length;
          assert bodyRead ==> buffer == input2[..length] && transport.input == input2[length..];
          assert bodyRead ==> 8 + length <= |input0| && input2[length..] == input0[8 + length..];
          if |buffer| < length {
            result := false;
          } else if length < 6 {
            // the body cannot hold the session id: fail rather than read past it
            result := false;
          } else {
            assert buffer[2..6] == input2[2..6] == input0[10..14];
            sessionId := DecodeBE32(buffer[2..6]);
          }
        }
      }
    }

    /** `closeSession`: the source leaves it empty; it changes nothing and
        sends nothing. */
    method CloseSession()
      ensures unchanged(this) && unchanged(transport)
    {
    }

    /** `send`: frames `cmd` without its leading 's', writes it, and reads
        the reply. A short write is a network error and nothing is read. */
    method Send(cmd: seq<u8>) returns (response: CoLaCommand)
      requires |cmd| >= 1
      modifies this`reqId, transport`sent, transport`input
      ensures reqId == NextReqId(old(reqId)) && sessionId == old(sessionId)
      ensures transport.sent == old(transport.sent) + [Frame(sessionId, reqId, cmd)]
      ensures if |cmd| + 15 <= transport.sendLimit
              then (response, transport.input) == ReceiveResponse(old(transport.input))
              else response == NetworkErrorCommand && transport.input == old(transport.input)
    {
      var buffer := cmd;
      var header := CreateCoLa2Header();
      buffer := buffer[1..];  // drop the 's'
      buffer := header + buffer;
      buffer := Overwrite(buffer, 4, EncodeBE32(Wrap32(|buffer| - 8)));
      assert buffer == Frame(sessionId, reqId, cmd);
      ghost var input0 := transport.input;

      var written := transport.Send(buffer);
      if written != |buffer| {
        return NetworkErrorCommand;
      }
      buffer := transport.Read(4);
      if |buffer| != 4 {
        return NetworkErrorCommand;
      }
      assert buffer == input0[..4] && transport.input == input0[4..];
      if buffer == Magic {
        buffer := transport.Read(4);
        if |buffer| != 4 {
          return NetworkErrorCommand;
        }
        assert buffer == input0[4..8] && transport.input == input0[8..];
        var length := DecodeBE32(buffer) as nat;
        buffer := transport.Read(length);
        if |buffer| != length {
          return NetworkErrorCommand;
        }
        assert buffer == input0[8..8 + length] && transport.input == input0[8 + length..];
        if |buffer| > 8 {
          buffer := buffer[8..];  // drop the echoed header bytes
        }
        buffer := [SMarker] + buffer;
      } else {
        buffer := [];  // drop invalid data
      }
      response := Command(buffer);
    }

    /** `calculateChecksum`. */
    method CalculateChecksum(buffer: seq<u8>) returns (checksum: u8)
      ensures checksum == Checksum(buffer)
    {
      checksum := 0;
      var i := 8;
      while i < |buffer|
        invariant 8 <= i && (|buffer| > 8 ==> i <= |buffer|)
        invariant |buffer| <= 8 ==> checksum == 0
        invariant |buffer| > 8 ==> checksum == XorAll(buffer[8..i])
      {
        assert buffer[8..i + 1][..i - 8] == buffer[8..i];
        checksum := Xor(checksum, buffer[i]);
        i := i + 1;
      }
      assert |buffer| > 8 ==> buffer[8..i] == buffer[8..];
    }
  }
}
