/** The reliable byte stream the CoLa2 handler talks through (`ITransport`).

    Only its send/read contract is modelled, as a scripted object: every
    frame handed to `Send` is appended to a log, and `Read(n)` takes at most
    `n` bytes from the front of a queue of bytes the device will deliver.
    A transport that cannot take a whole frame is modelled by `sendLimit`,
    the largest count a single send reports. */
module Transport {
  import opened Bytes

  class StreamTransport {
    /** Every frame handed to `Send`, oldest first. */
    var sent: seq<seq<u8>>
    /** The bytes the peer has yet to deliver. */
    var input: seq<u8>
    /** The most bytes one `Send` reports as written. */
    const sendLimit: nat

    constructor (input: seq<u8>, sendLimit: nat)
      ensures this.sent == [] && this.input == input && this.sendLimit == sendLimit
    {
      this.sent := [];
      this.input := input;
      this.sendLimit := sendLimit;
    }

    /** `send(buffer)`: returns how many bytes were written. */
    method Send(frame: seq<u8>) returns (count: nat)
      modifies this`sent
      ensures sent == old(sent) + [frame]
      ensures count == Min(|frame|, sendLimit)
      ensures count == |frame| <==> |frame| <= sendLimit
    {
      sent := sent + [frame];
      count := Min(|frame|, sendLimit);
    }

    /** `read(buffer, n)`: the buffer is replaced by the bytes received, at
        most `n`; a short result means the stream ran dry. */
    method Read(n: nat) returns (data: seq<u8>)
      modifies this`input
      ensures |data| == Min(n, |old(input)|)
      ensures old(input) == data + input
    {
      var k := Min(n, |input|);
      data := input[..k];
      input := input[k..];
    }
  }
}
