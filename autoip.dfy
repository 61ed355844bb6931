/** AutoIP discovery (`VisionaryAutoIPScan::doScan` and `parseAutoIPXml`).

    A scan broadcasts a 16-byte discover packet carrying a per-scan telegram
    id, then keeps every reply datagram that is longer than 16 bytes, starts
    with the reply code 0x90, echoes that telegram id and holds the whole
    XML payload its header announces. Each payload is turned into a
    `DeviceInfo` from the key/value entries of its `NetScanResult` element.

    The clock, the random seed, the UDP socket and the XML parser are not
    modelled: the telegram id, the host byte order, the datagrams received
    before the timeout and the result of reading each payload as XML are
    parameters. */
module AutoIPScan {
  import opened Bytes
  import opened Wrappers

  const DiscoverCommand: u8 := 0x10
  const ReplyCommand: u8 := 0x90
  /** A reply must be strictly longer than this. */
  const MinReplySize: nat := 16
  /** `recv(receiveBuffer, 1400)`. */
  const ReceiveBufferSize: nat := 1400
  const XmlAttr: string := "<xmlattr>"

  // ---------------------------------------------------------------------
  // The discover packet

  /** The byte order of the host, which decides what `memcpy` of the
      telegram id writes. */
  datatype HostOrder = LittleEndian | BigEndian

  function NativeBytes32(v: u32, host: HostOrder): (bs: seq<u8>)
    ensures |bs| == 4
  {
    match host
    case LittleEndian => EncodeLE32(v)
    case BigEndian => EncodeBE32(v)
  }

  /** The discover packet: command 0x10, a reserved byte, a zero data
      length, the broadcast MAC, the telegram id, two reserved bytes. */
  function DiscoverPacket(telegramId: u32, host: HostOrder): (p: seq<u8>)
    ensures |p| == 16 && p[0] == DiscoverCommand
    ensures p[10..14] == NativeBytes32(telegramId, host)
  {
    [DiscoverCommand, 0x00, 0x00, 0x00, 0xFF, 0xFF, 0xFF, 0xFF, 0xFF, 0xFF]
      + NativeBytes32(telegramId, host) + [0x00, 0x00]
  }

  /** Builds the packet byte by byte, then copies the id over bytes 10..13. */
  method BuildDiscoverPacket(telegramId: u32, host: HostOrder) returns (packet: seq<u8>)
    ensures packet == DiscoverPacket(telegramId, host)
    ensures |packet| == 16 && packet[0] == DiscoverCommand
    ensures packet[1..4] == [0, 0, 0] && packet[4..10] == [0xFF, 0xFF, 0xFF, 0xFF, 0xFF, 0xFF]
    ensures packet[14..] == [0, 0]
  {
    packet := [];
    packet := packet + [DiscoverCommand];
    packet := packet + [0x00];  // reserved
    packet := packet + [0x00];  // length of the data block
    packet := packet + [0x00];
    var k := 0;
    while k < 6
      invariant 0 <= k <= 6
      invariant packet == [DiscoverCommand, 0x00, 0x00, 0x00] + seq(k, _ => 0xFF)
    {
      packet := packet + [0xFF];  // MAC address
      k := k + 1;
    }
    packet := packet + [0x00, 0x00, 0x00, 0x00];  // telegram id
    packet := packet + [0x00, 0x00];  // reserved
    ghost var blank := packet;
    assert blank[..10] == [DiscoverCommand, 0x00, 0x00, 0x00, 0xFF, 0xFF, 0xFF, 0xFF, 0xFF, 0xFF];
    packet := Overwrite(packet, 10, NativeBytes32(telegramId, host));
    assert packet[..10] == blank[..10];
    assert packet[1..4] == blank[..10][1..4] && packet[4..10] == blank[..10][4..10];
  }

  /** On a little-endian host, reading bytes 10..13 of the packet back as the
      replies are read gives the telegram id that was sent. */
  lemma TelegramIdEcho(telegramId: u32)
    ensures DecodeLE32(DiscoverPacket(telegramId, LittleEndian)[10..14]) == telegramId
  {
    assert DiscoverPacket(telegramId, LittleEndian)[10..14] == EncodeLE32(telegramId);
    LE32RoundTrip(telegramId);
  }

  /** On a big-endian host the echoed id, read little-endian, is the id
      sent exactly when its four bytes read the same reversed; every other
      id (1, for one) is misread, and its replies are rejected. */
  lemma BigEndianHostEcho(telegramId: u32)
    ensures var bs := EncodeBE32(telegramId);
      (DecodeLE32(DiscoverPacket(telegramId, BigEndian)[10..14]) == telegramId
       <==> bs[0] == bs[3] && bs[1] == bs[2])
  {
    var bs := EncodeBE32(telegramId);
    var rev := [bs[3], bs[2], bs[1], bs[0]];
    assert DiscoverPacket(telegramId, BigEndian)[10..14] == bs;
    BE32RoundTrip(telegramId);
    if DecodeBE32(rev) == telegramId {
      BE32Inverse(rev);
      assert rev == bs;
      assert rev[0] == bs[0] && rev[1] == bs[1];
    }
    if bs[0] == bs[3] && bs[1] == bs[2] {
      assert rev == bs;
    }
  }

  // ---------------------------------------------------------------------
  // The XML payload, as the property tree would hold it

  datatype DeviceInfo = DeviceInfo(deviceName: string, ipAddress: string, macAddress: string,
                                   port: string, subNet: string)

  /** A child of `NetScanResult`: its tag, and its `key` and `value`
      attributes where present. The attribute node itself has tag
      `<xmlattr>`. */
  datatype XmlChild = XmlChild(tag: string, key: Option<string>, value: Option<string>)

  /** The `NetScanResult` element: its `MACAddr` attribute where present,
      and its children in document order. */
  datatype NetScanResult = NetScanResult(macAddr: Option<string>, children: seq<XmlChild>)

  predicate IsAttributeNode(c: XmlChild)
  {
    c.tag == XmlAttr
  }

  /** No child other than the attribute node lacks its key or value (a
      missing one makes `get` throw). */
  predicate Readable(children: seq<XmlChild>)
  {
    forall i :: 0 <= i < |children| && !IsAttributeNode(children[i]) ==>
      children[i].key.Some? && children[i].value.Some?
  }

  predicate Matches(c: XmlChild, key: string)
  {
    !IsAttributeNode(c) && c.key == Some(key) && c.value.Some?
  }

  /** The value of the last entry with this key, or "" if there is none. */
  function LastValue(children: seq<XmlChild>, key: string): (v: string)
  {
    if children == [] then ""
    else if Matches(children[|children| - 1], key) then children[|children| - 1].value.value
    else LastValue(children[..|children| - 1], key)
  }

  /** The device `parseAutoIPXml` returns, or `None` where it throws. */
  function DeviceInfoOf(tree: NetScanResult): (r: Option<DeviceInfo>)
    ensures r.Some? <==> tree.macAddr.Some? && Readable(tree.children)
    ensures r.Some? ==> r.value.macAddress == tree.macAddr.value
  {
    if tree.macAddr.None? || !Readable(tree.children) then None
    else Some(DeviceInfo(LastValue(tree.children, "DeviceType"), LastValue(tree.children, "IPAddress"),
                         tree.macAddr.value, LastValue(tree.children, "HostPortNo"),
                         LastValue(tree.children, "IPMask")))
  }

  /** `parseAutoIPXml`: one pass over the children, each recognised key
      overwriting its string. */
  method ParseAutoIPXml(tree: NetScanResult) returns (r: Option<DeviceInfo>)
    ensures r == DeviceInfoOf(tree)
    ensures r.Some? <==> tree.macAddr.Some? && Readable(tree.children)
    ensures r.Some? ==> (r.value.macAddress == tree.macAddr.value
                         && r.value.deviceName == LastValue(tree.children, "DeviceType"))
  {
    if tree.macAddr.None? {
      return None;
    }
    var macAddress := tree.macAddr.value;
    var cs := tree.children;
    var ipAddress, subNet, port, deviceType := "", "", "", "";
    var i := 0;
    while i < |cs|
      invariant 0 <= i <= |cs|
      invariant Readable(cs[..i])
      invariant ipAddress == LastValue(cs[..i], "IPAddress")
      invariant subNet == LastValue(cs[..i], "IPMask")
      invariant port == LastValue(cs[..i], "HostPortNo")
      invariant deviceType == LastValue(cs[..i], "DeviceType")
    {
      var c := cs[i];
      assert cs[..i + 1][..i] == cs[..i] && cs[..i + 1][i] == c;
      if c.tag != XmlAttr {
        if c.key.None? || c.value.None? {
          assert !Readable(cs);
          return None;
        }
        var key, value := c.key.value, c.value.value;
        if key == "IPAddress" {
          ipAddress := value;
        }
        if key == "IPMask" {
          subNet := value;
        }
        if key == "HostPortNo" {
          port := value;
        }
        if key == "DeviceType" {
          deviceType := value;
        }
      }
      i := i + 1;
    }
    assert cs[..i] == cs;
    r := Some(DeviceInfo(deviceType, ipAddress, macAddress, port, subNet));
  }

  /** The last entry with a key wins. */
  lemma LastEntryWins(children: seq<XmlChild>, c: XmlChild, key: string)
    requires Matches(c, key)
    ensures LastValue(children + [c], key) == c.value.value
  {
  }

  /** Entries with another key, and the attribute node, change nothing. */
  lemma OtherEntriesIgnored(children: seq<XmlChild>, c: XmlChild, key: string)
    requires !Matches(c, key)
    ensures LastValue(children + [c], key) == LastValue(children, key)
  {
    assert (children + [c])[..|children|] == children;
  }

  /** The value selected for a key is that of its last matching entry,
      wherever that entry stands. */
  lemma {:induction false} LastMatchWins(cs: seq<XmlChild>, i: nat, key: string)
    requires i < |cs| && Matches(cs[i], key)
    requires forall j :: i < j < |cs| ==> !Matches(cs[j], key)
    ensures LastValue(cs, key) == cs[i].value.value
  {
    if i < |cs| - 1 {
      var init := cs[..|cs| - 1];
      assert init[i] == cs[i];
      assert forall j :: i < j < |init| ==> init[j] == cs[j];
      LastMatchWins(init, i, key);
    }
  }

  /** A key that no entry carries gives the empty string. */
  lemma {:induction false} MissingKeyIsEmpty(children: seq<XmlChild>, key: string)
    requires forall i :: 0 <= i < |children| ==> !Matches(children[i], key)
    ensures LastValue(children, key) == ""
  {
    if children != [] {
      MissingKeyIsEmpty(children[..|children| - 1], key);
    }
  }

  /** A value that is not "" comes from some entry with that key. */
  lemma {:induction false} LastValueFromEntry(children: seq<XmlChild>, key: string)
    requires LastValue(children, key) != ""
    ensures exists i :: 0 <= i < |children| && Matches(children[i], key)
                        && children[i].value.value == LastValue(children, key)
  {
    var n := |children|;
    if !Matches(children[n - 1], key) {
      LastValueFromEntry(children[..n - 1], key);
      var i :| 0 <= i < n - 1 && Matches(children[..n - 1][i], key)
               && children[..n - 1][i].value.value == LastValue(children[..n - 1], key);
      assert children[i] == children[..n - 1][i];
    }
  }

  // ---------------------------------------------------------------------
  // Reply datagrams

  datatype ReplyVerdict =
    | Ignored               // too short, not a reply, or another scan's
    | Invalid               // shorter than the payload it announces
    | Payload(xml: seq<u8>)

  /** What the scan loop does with one received buffer. */
  function ClassifyReply(buffer: seq<u8>, telegramId: u32): (v: ReplyVerdict)
    ensures !v.Ignored? ==> |buffer| > MinReplySize && buffer[0] == ReplyCommand
                            && DecodeLE32(buffer[10..14]) == telegramId
    ensures v.Payload? ==> |v.xml| == DecodeBE16(buffer[2..4]) as int
                           && 16 + |v.xml| <= |buffer| && v.xml == buffer[16..16 + |v.xml|]
    ensures v == Invalid ==> |buffer| < 16 + DecodeBE16(buffer[2..4]) as int
    ensures |buffer| > MinReplySize && buffer[0] == ReplyCommand && DecodeLE32(buffer[10..14]) == telegramId ==>
              v == (if |buffer| >= 16 + DecodeBE16(buffer[2..4]) as int
                    then Payload(buffer[16..16 + DecodeBE16(buffer[2..4]) as int]) else Invalid)
  {
    if |buffer| <= MinReplySize || buffer[0] != ReplyCommand then Ignored
    else if DecodeLE32(buffer[10..14]) != telegramId then Ignored
    else
      var payloadSize := DecodeBE16(buffer[2..4]) as nat;
      if |buffer| >= MinReplySize + payloadSize then Payload(buffer[16..16 + payloadSize])
      else Invalid
  }

  /** A reply as a device writes it: code 0x90, a reserved byte, the
      big-endian payload length, its MAC, the echoed telegram id, two
      reserved bytes, the XML payload. */
  function ReplyDatagram(telegramId: u32, mac: seq<u8>, xml: seq<u8>): (d: seq<u8>)
    requires |mac| == 6 && |xml| < 0x1_0000
    ensures |d| == 16 + |xml|
  {
    [ReplyCommand, 0x00] + EncodeBE16(|xml| as u16) + mac + EncodeLE32(telegramId) + [0x00, 0x00] + xml
  }

  /** A non-empty reply to this scan yields exactly its payload, whatever
      follows it in the datagram; the same reply is ignored by any scan with
      another telegram id. */
  lemma ReplyRoundTrip(telegramId: u32, mac: seq<u8>, xml: seq<u8>, trailer: seq<u8>, other: u32)
    requires |mac| == 6 && 1 <= |xml| < 0x1_0000
    requires other != telegramId
    ensures ClassifyReply(ReplyDatagram(telegramId, mac, xml) + trailer, telegramId) == Payload(xml)
    ensures ClassifyReply(ReplyDatagram(telegramId, mac, xml) + trailer, other) == Ignored
  {
    var d := ReplyDatagram(telegramId, mac, xml) + trailer;
    assert d[2..4] == EncodeBE16(|xml| as u16);
    assert d[10..14] == EncodeLE32(telegramId);
    assert d[16..16 + |xml|] == xml;
    BE16RoundTrip(|xml| as u16);
    LE32RoundTrip(telegramId);
  }

  /** A reply cut short of its payload is reported invalid, not used. */
  lemma TruncatedReplyInvalid(telegramId: u32, mac: seq<u8>, xml: seq<u8>, k: nat)
    requires |mac| == 6 && |xml| < 0x1_0000
    requires MinReplySize < k < 16 + |xml|
    ensures ClassifyReply(ReplyDatagram(telegramId, mac, xml)[..k], telegramId) == Invalid
  {
    var full := ReplyDatagram(telegramId, mac, xml);
    var d := full[..k];
    assert d[2..4] == full[2..4] == EncodeBE16(|xml| as u16);
    assert d[10..14] == full[10..14] == EncodeLE32(telegramId);
    BE16RoundTrip(|xml| as u16);
    LE32RoundTrip(telegramId);
  }

  /** Buffers of at most 16 bytes and buffers not starting with 0x90 are
      ignored, whatever else they hold. */
  lemma RejectedReplies(buffer: seq<u8>, telegramId: u32)
    ensures |buffer| <= MinReplySize ==> ClassifyReply(buffer, telegramId) == Ignored
    ensures |buffer| > 0 && buffer[0] != ReplyCommand ==> ClassifyReply(buffer, telegramId) == Ignored
  {
  }

  // ---------------------------------------------------------------------
  // The scan

  /** The buffer `recv(receiveBuffer, 1400)` fills from a datagram. */
  function Received(datagram: seq<u8>): (b: seq<u8>)
    ensures |b| <= ReceiveBufferSize && b <= datagram
    ensures |datagram| <= ReceiveBufferSize ==> b == datagram
  {
    datagram[..Min(|datagram|, ReceiveBufferSize)]
  }

  /** The devices one received buffer adds to the list: none, or the one
      its payload describes when the payload reads as XML and parses. */
  function DevicesOf(buffer: seq<u8>, telegramId: u32, readXml: seq<u8> -> Option<NetScanResult>): (found: seq<DeviceInfo>)
  {
    match ClassifyReply(buffer, telegramId)
    case Payload(xml) =>
      (match readXml(xml)
       case Some(tree) => (match DeviceInfoOf(tree) case Some(info) => [info] case None => [])
       case None => [])
    case _ => []
  }

  function DevicesFrom(datagram: seq<u8>, telegramId: u32, readXml: seq<u8> -> Option<NetScanResult>): (found: seq<DeviceInfo>)
  {
    DevicesOf(Received(datagram), telegramId, readXml)
  }

  /** The device list after the given datagrams, in arrival order. */
  function Collect(datagrams: seq<seq<u8>>, telegramId: u32, readXml: seq<u8> -> Option<NetScanResult>): (deviceList: seq<DeviceInfo>)
  {
    if datagrams == [] then []
    else Collect(datagrams[..|datagrams| - 1], telegramId, readXml)
         + DevicesFrom(datagrams[|datagrams| - 1], telegramId, readXml)
  }

  /** The body of the receive loop for one buffer: walks the reply header
      with a cursor and returns the device to append, if any. A parse
      failure (`readXml` or `ParseAutoIPXml` giving `None`) drops only this
      reply. */
  method HandleReply(receiveBuffer: seq<u8>, telegramId: u32, readXml: seq<u8> -> Option<NetScanResult>)
    returns (found: seq<DeviceInfo>)
    ensures found == DevicesOf(receiveBuffer, telegramId, readXml)
    ensures |found| <= 1
    ensures found != [] ==> ClassifyReply(receiveBuffer, telegramId).Payload?
  {
    found := [];
    if |receiveBuffer| <= MinReplySize {
      return;
    }
    var pos := 0;
    if receiveBuffer[pos] != ReplyCommand {
      return;
    }
    pos := pos + 1;
    pos := pos + 1;  // unused byte
    var payLoadSize := receiveBuffer[pos] as nat * 0x100 + receiveBuffer[pos + 1] as nat;
    assert payLoadSize == DecodeBE16(receiveBuffer[2..4]) as nat;
    pos := pos + 2;
    pos := pos + 6;  // MAC address, repeated in the XML
    var recvTelegramId := receiveBuffer[pos] as int + receiveBuffer[pos + 1] as int * 0x100
                          + receiveBuffer[pos + 2] as int * 0x1_0000 + receiveBuffer[pos + 3] as int * 0x100_0000;
    LE32Weights(receiveBuffer[10..14]);
    pos := pos + 4;
    if recvTelegramId != telegramId as int {
      return;
    }
    pos := pos + 2;  // unused
    if |receiveBuffer| >= pos + payLoadSize {
      var tree := readXml(receiveBuffer[pos..pos + payLoadSize]);
      if tree.Some? {
        var dI := ParseAutoIPXml(tree.value);
        if dI.Some? {
          found := [dI.value];
        }
      }
    }
    // else: an invalid AutoIP packet, logged and dropped
  }

  /** `doScan`: if the socket connects, sends the discover packet once and
      collects the devices from the datagrams received before the timeout. */
  method DoScan(connected: bool, telegramId: u32, host: HostOrder, datagrams: seq<seq<u8>>,
                readXml: seq<u8> -> Option<NetScanResult>)
    returns (sent: seq<seq<u8>>, deviceList: seq<DeviceInfo>)
    ensures !connected ==> sent == [] && deviceList == []
    ensures connected ==> sent == [DiscoverPacket(telegramId, host)]
    ensures connected ==> deviceList == Collect(datagrams, telegramId, readXml)
  {
    deviceList := [];
    if !connected {
      return [], deviceList;
    }
    var autoIpPacket := BuildDiscoverPacket(telegramId, host);
    sent := [autoIpPacket];

    var k := 0;
    while k < |datagrams|
      invariant 0 <= k <= |datagrams|
      invariant deviceList == Collect(datagrams[..k], telegramId, readXml)
    {
      assert datagrams[..k + 1][..k] == datagrams[..k];
      var receiveBuffer := Received(datagrams[k]);  // recv(receiveBuffer, 1400)
      var found := HandleReply(receiveBuffer, telegramId, readXml);
      deviceList := deviceList + found;
      k := k + 1;
    }
    assert datagrams[..k] == datagrams;
  }

  /** Arrival order: a later datagram can only add at the end. */
  lemma CollectAppend(datagrams: seq<seq<u8>>, d: seq<u8>, telegramId: u32, readXml: seq<u8> -> Option<NetScanResult>)
    ensures Collect(datagrams + [d], telegramId, readXml)
         == Collect(datagrams, telegramId, readXml) + DevicesFrom(d, telegramId, readXml)
  {
    assert (datagrams + [d])[..|datagrams|] == datagrams;
  }

  /** The device list only grows: what later datagrams add never changes the
      entries already collected. */
  lemma {:induction false} CollectOnlyGrows(ds: seq<seq<u8>>, es: seq<seq<u8>>, telegramId: u32,
                                            readXml: seq<u8> -> Option<NetScanResult>)
    ensures Collect(ds, telegramId, readXml) <= Collect(ds + es, telegramId, readXml)
  {
    if es == [] {
      assert ds + es == ds;
    } else {
      var es' := es[..|es| - 1];
      CollectOnlyGrows(ds, es', telegramId, readXml);
      assert ds + es == (ds + es') + [es[|es| - 1]];
      CollectAppend(ds + es', es[|es| - 1], telegramId, readXml);
    }
  }

  /** At most one device per datagram. */
  lemma {:induction false} CollectAtMostOnePerDatagram(ds: seq<seq<u8>>, telegramId: u32,
                                                       readXml: seq<u8> -> Option<NetScanResult>)
    ensures |Collect(ds, telegramId, readXml)| <= |ds|
  {
    if ds != [] {
      CollectAtMostOnePerDatagram(ds[..|ds| - 1], telegramId, readXml);
    }
  }

  /** The received buffer is long enough to be a reply and echoes this id. */
  predicate CarriesTelegramId(datagram: seq<u8>, telegramId: u32)
  {
    var b := Received(datagram);
    |b| > MinReplySize && DecodeLE32(b[10..14]) == telegramId
  }

  function OwnReplies(ds: seq<seq<u8>>, telegramId: u32): (r: seq<seq<u8>>)
    ensures forall i :: 0 <= i < |r| ==> CarriesTelegramId(r[i], telegramId)
  {
    if ds == [] then []
    else if CarriesTelegramId(ds[|ds| - 1], telegramId) then OwnReplies(ds[..|ds| - 1], telegramId) + [ds[|ds| - 1]]
    else OwnReplies(ds[..|ds| - 1], telegramId)
  }

  /** Correlation: a scan's result is what it would have collected had it
      seen only the datagrams echoing its own telegram id. Replies to other
      scans, however interleaved, contribute nothing. */
  lemma {:induction false} OnlyOwnRepliesCount(ds: seq<seq<u8>>, telegramId: u32,
                                               readXml: seq<u8> -> Option<NetScanResult>)
    ensures Collect(ds, telegramId, readXml) == Collect(OwnReplies(ds, telegramId), telegramId, readXml)
  {
    if ds != [] {
      var init, d := ds[..|ds| - 1], ds[|ds| - 1];
      OnlyOwnRepliesCount(init, telegramId, readXml);
      if CarriesTelegramId(d, telegramId) {
        CollectAppend(OwnReplies(init, telegramId), d, telegramId, readXml);
      }
    }
  }

  /** Two scans with different telegram ids never share a reply: the replies
      echoing one id give the other scan no device. */
  lemma {:induction false} ScansDoNotShareReplies(ds: seq<seq<u8>>, a: u32, b: u32,
                                                 readXml: seq<u8> -> Option<NetScanResult>)
    requires a != b
    ensures Collect(OwnReplies(ds, a), b, readXml) == []
  {
    if ds != [] {
      var init, d := ds[..|ds| - 1], ds[|ds| - 1];
      ScansDoNotShareReplies(init, a, b, readXml);
      if CarriesTelegramId(d, a) {
        CollectAppend(OwnReplies(init, a), d, b, readXml);
      }
    }
  }
}
