/** The UDP tracker exchange of BEP 15 (section "UDP tracker protocol"): big-endian packets and the
    connect and scrape round trips of `scrape_udp_tracker`. */
module UdpTracker {
  import opened BencodeCodec
  import opened Optional

  type uint32 = n: int | 0 <= n < 0x1_0000_0000
  type uint64 = n: int | 0 <= n < 0x1_0000_0000_0000_0000

  const PROTOCOL_ID: uint64 := 0x417_2710_1980
  const CONNECT: uint32 := 0
  const SCRAPE: uint32 := 2
  const ERROR: uint32 := 3
  const RECV_BUFFER_BYTES := 2048

  datatype Stats = Stats(seeders: uint32, leechers: uint32, completed: uint32)

  datatype Failure =
    | TrackerError(message: Bytes)
    | TooShort(length: nat)
    | UnexpectedAction(action: uint32)
    | TransactionMismatch
    | BadInfoHash(length: nat)
    | Timeout

  datatype Result<+T> = Success(value: T) | Failed(failure: Failure)

  // ---------------------------------------------------------------------------
  // Big-endian numbers (`struct.pack` with ">I" and ">Q")
  // ---------------------------------------------------------------------------

  function Number(data: Bytes): nat {
    if data == [] then 0 else 256 * Number(data[..|data| - 1]) + data[|data| - 1]
  }

  function Packed(n: nat, width: nat): (data: Bytes)
    ensures |data| == width
  {
    if width == 0 then [] else Packed(n / 256, width - 1) + [n % 256]
  }

  function Power256(width: nat): (p: nat)
    ensures p > 0
  {
    if width == 0 then 1 else 256 * Power256(width - 1)
  }

  lemma {:induction false} PackedNumber(n: nat, width: nat)
    requires n < Power256(width)
    ensures Number(Packed(n, width)) == n
  {
    if width > 0 {
      PackedNumber(n / 256, width - 1);
      assert Packed(n, width)[..width - 1] == Packed(n / 256, width - 1);
    }
  }

  lemma {:induction false} NumberPacked(data: Bytes)
    ensures Number(data) < Power256(|data|)
    ensures Packed(Number(data), |data|) == data
  {
    if data != [] {
      NumberPacked(data[..|data| - 1]);
    }
  }

  lemma Widths()
    ensures Power256(4) == 0x1_0000_0000 && Power256(8) == 0x1_0000_0000_0000_0000
  {
    assert Power256(1) == 256 && Power256(2) == 0x1_0000 && Power256(3) == 0x100_0000;
    assert Power256(5) == 0x100_0000_0000 && Power256(6) == 0x1_0000_0000_0000 && Power256(7) == 0x100_0000_0000_0000;
  }

  function Pack32(n: uint32): (data: Bytes)
    ensures |data| == 4
  {
    Packed(n, 4)
  }

  function Pack64(n: uint64): (data: Bytes)
    ensures |data| == 8
  {
    Packed(n, 8)
  }

  function Unpack32(data: Bytes, at: nat): uint32
    requires at + 4 <= |data|
  {
    NumberPacked(data[at..at + 4]);
    Widths();
    Number(data[at..at + 4])
  }

  function Unpack64(data: Bytes, at: nat): uint64
    requires at + 8 <= |data|
  {
    NumberPacked(data[at..at + 8]);
    Widths();
    Number(data[at..at + 8])
  }

  /** Reading a field where it was written gives it back, wherever it stands in the packet. */
  lemma Field32(before: Bytes, n: uint32, after: Bytes)
    ensures Unpack32(before + Pack32(n) + after, |before|) == n
  {
    Widths();
    PackedNumber(n, 4);
    assert (before + Pack32(n) + after)[|before|..|before| + 4] == Pack32(n);
  }

  lemma Field64(before: Bytes, n: uint64, after: Bytes)
    ensures Unpack64(before + Pack64(n) + after, |before|) == n
  {
    Widths();
    PackedNumber(n, 8);
    assert (before + Pack64(n) + after)[|before|..|before| + 8] == Pack64(n);
  }

  /** Network byte order, byte by byte. */
  lemma BigEndian(n: uint32)
    ensures Pack32(n) == [n / 0x100_0000, n / 0x1_0000 % 256, n / 0x100 % 256, n % 256]
  {
    assert Packed(n / 0x100_0000, 1) == [n / 0x100_0000];
    assert n / 256 / 256 / 256 == n / 0x100_0000 && n / 256 / 256 == n / 0x1_0000;
    assert Packed(n / 0x1_0000, 2) == [n / 0x100_0000, n / 0x1_0000 % 256];
    assert Packed(n / 0x100, 3) == [n / 0x100_0000, n / 0x1_0000 % 256, n / 0x100 % 256];
  }

  // ---------------------------------------------------------------------------
  // Requests and replies
  // ---------------------------------------------------------------------------

  function ConnectRequest(transaction: uint32): Bytes {
    Pack64(PROTOCOL_ID) + Pack32(CONNECT) + Pack32(transaction)
  }

  /** The first datagram on the wire: the magic number of BEP 15, action 0, the transaction id. */
  lemma ConnectRequestOnTheWire(transaction: uint32)
    ensures ConnectRequest(transaction)
            == [0, 0, 0x04, 0x17, 0x27, 0x10, 0x19, 0x80] + [0, 0, 0, 0] + Pack32(transaction)
  {
    BigEndian(0);
    BigEndian(0x417);
    BigEndian(0x2710_1980);
    assert Packed(0x417_27, 5) == Packed(0x417, 4) + [0x27];
    assert Packed(0x417_2710, 6) == Packed(0x417_27, 5) + [0x10];
    assert Packed(0x417_2710_19, 7) == Packed(0x417_2710, 6) + [0x19];
    assert Packed(0x417_2710_1980, 8) == Packed(0x417_2710_19, 7) + [0x80];
  }

  function ScrapeRequest(connection: uint64, transaction: uint32, infoHash: Bytes): Result<Bytes> {
    if |infoHash| != 20 then Failed(BadInfoHash(|infoHash|))
    else Success(Pack64(connection) + Pack32(SCRAPE) + Pack32(transaction) + infoHash)
  }

  /** `_check_for_udp_error_action`: an error reply to this very transaction. */
  predicate IsErrorReply(data: Bytes, transaction: uint32) {
    |data| >= 8 && Unpack32(data, 0) == ERROR && Unpack32(data, 4) == transaction
  }

  function ParseConnectResponse(data: Bytes, transaction: uint32): Result<uint64> {
    if IsErrorReply(data, transaction) then Failed(TrackerError(data[8..]))
    else if |data| < 16 then Failed(TooShort(|data|))
    else if Unpack32(data, 0) != CONNECT then Failed(UnexpectedAction(Unpack32(data, 0)))
    else if Unpack32(data, 4) != transaction then Failed(TransactionMismatch)
    else Success(Unpack64(data, 8))
  }

  function ParseScrapeResponse(data: Bytes, transaction: uint32): Result<Stats> {
    if IsErrorReply(data, transaction) then Failed(TrackerError(data[8..]))
    else if |data| < 20 then Failed(TooShort(|data|))
    else if Unpack32(data, 0) != SCRAPE then Failed(UnexpectedAction(Unpack32(data, 0)))
    else if Unpack32(data, 4) != transaction then Failed(TransactionMismatch)
    else
      var seeders, completed, leechers := Unpack32(data, 8), Unpack32(data, 12), Unpack32(data, 16);
      Success(Stats(seeders, leechers, completed))
  }

  // ---------------------------------------------------------------------------
  // The exchange
  // ---------------------------------------------------------------------------

  /** The network as seen through the socket: what comes back after the datagrams sent so far, if
      anything does. It may lie, replay, truncate or stay silent. */
  type Network = seq<Bytes> -> Option<Bytes>

  function Received(datagram: Bytes): Bytes {
    if |datagram| > RECV_BUFFER_BYTES then datagram[..RECV_BUFFER_BYTES] else datagram
  }

  class Socket {
    const network: Network
    var sent: seq<Bytes>
    var closed: bool

    constructor (network: Network)
      ensures this.network == network && sent == [] && !closed
    {
      this.network := network;
      sent, closed := [], false;
    }

    method SendTo(datagram: Bytes)
      requires !closed
      modifies this
      ensures sent == old(sent) + [datagram] && !closed
    {
      sent := sent + [datagram];
    }

    method RecvFrom() returns (r: Result<Bytes>)
      requires !closed
      ensures r == match network(sent) case None => Failed(Timeout) case Some(d) => Success(Received(d))
    {
      match network(sent)
      case None => r := Failed(Timeout);
      case Some(d) => r := Success(Received(d));
    }

    method Close()
      modifies this
      ensures closed && sent == old(sent)
    {
      closed := true;
    }
  }

  datatype Transcript = Transcript(sent: seq<Bytes>, result: Result<Stats>)

  /** What the exchange sends and concludes against `network`. */
  function Exchange(network: Network, connectId: uint32, scrapeId: uint32, infoHash: Bytes): Transcript {
    var first := ConnectRequest(connectId);
    match network([first])
    case None => Transcript([first], Failed(Timeout))
    case Some(reply) =>
      match ParseConnectResponse(Received(reply), connectId)
      case Failed(f) => Transcript([first], Failed(f))
      case Success(connection) =>
        match ScrapeRequest(connection, scrapeId, infoHash)
        case Failed(f) => Transcript([first], Failed(f))
        case Success(second) =>
          match network([first, second])
          case None => Transcript([first, second], Failed(Timeout))
          case Some(answer) => Transcript([first, second], ParseScrapeResponse(Received(answer), scrapeId))
  }

  /** `scrape_udp_tracker` on a fresh socket; the two transaction ids are the ones drawn on the way. */
  method ScrapeUdpTracker(sock: Socket, connectId: uint32, scrapeId: uint32, infoHash: Bytes)
    returns (r: Result<Stats>)
    requires !sock.closed && sock.sent == []
    modifies sock
    ensures sock.closed
    ensures Transcript(sock.sent, r) == Exchange(sock.network, connectId, scrapeId, infoHash)
  {
    sock.SendTo(ConnectRequest(connectId));
    assert sock.sent == [ConnectRequest(connectId)];
    var data := sock.RecvFrom();
    if data.Failed? {
      r := Failed(data.failure);
    } else {
      var connection := ParseConnectResponse(data.value, connectId);
      if connection.Failed? {
        r := Failed(connection.failure);
      } else {
        var request := ScrapeRequest(connection.value, scrapeId, infoHash);
        if request.Failed? {
          r := Failed(request.failure);
        } else {
          sock.SendTo(request.value);
          assert sock.sent == [ConnectRequest(connectId), request.value];
          data := sock.RecvFrom();
          r := if data.Failed? then Failed(data.failure) else ParseScrapeResponse(data.value, scrapeId);
        }
      }
    }
    sock.Close();
  }

  // ---------------------------------------------------------------------------
  // What stands behind a result
  // ---------------------------------------------------------------------------

  /** A reply that answers `transaction` with `action` and is at least `length` bytes long. */
  predicate Answers(data: Bytes, action: uint32, transaction: uint32, length: nat)
    requires length >= 8
  {
    |data| >= length && Unpack32(data, 0) == action && Unpack32(data, 4) == transaction
  }

  ghost predicate Replied(network: Network, sent: seq<Bytes>, reply: Bytes) {
    network(sent) == Some(reply)
  }

  /** Against any network: stats come out exactly when the connect reply answers the connect id, the
      hash is 20 bytes long, and the reply to a scrape request sent under the connection id of that
      connect reply answers the scrape id with action 2 in at least 20 bytes. The numbers are then
      that reply's. */
  lemma StatsComeFromOwnTransaction(network: Network, connectId: uint32, scrapeId: uint32, infoHash: Bytes)
    ensures var t := Exchange(network, connectId, scrapeId, infoHash);
            t.result.Success? <==>
            exists reply, answer ::
              && Replied(network, [ConnectRequest(connectId)], reply)
              && Answers(Received(reply), CONNECT, connectId, 16)
              && |infoHash| == 20
              && var second := Pack64(Unpack64(Received(reply), 8)) + Pack32(SCRAPE) + Pack32(scrapeId) + infoHash;
              && Replied(network, [ConnectRequest(connectId), second], answer)
              && Answers(Received(answer), SCRAPE, scrapeId, 20)
    ensures var t := Exchange(network, connectId, scrapeId, infoHash);
            t.result.Success? ==>
              && |t.sent| == 2
              && exists answer ::
                   && Replied(network, t.sent, answer)
                   && Answers(Received(answer), SCRAPE, scrapeId, 20)
                   && t.result.value.seeders == Unpack32(Received(answer), 8)
                   && t.result.value.completed == Unpack32(Received(answer), 12)
                   && t.result.value.leechers == Unpack32(Received(answer), 16)
  {
    hide Unpack32, Unpack64, Pack32, Pack64, ConnectRequest, Received;
    var t := Exchange(network, connectId, scrapeId, infoHash);
    if t.result.Success? {
      var reply := network([ConnectRequest(connectId)]).value;
      var answer := network(t.sent).value;
      assert Replied(network, [ConnectRequest(connectId)], reply);
      assert Replied(network, t.sent, answer);
    }
  }

  // ---------------------------------------------------------------------------
  // An honest tracker
  // ---------------------------------------------------------------------------

  /** A tracker as BEP 15 describes it, in the standard's own numbers: the connection id it hands out and
      its counts per hash. */
  datatype Tracker = Tracker(connection: uint64, swarm: map<Bytes, Stats>)

  function ConnectReply(t: Tracker, transaction: uint32): Bytes {
    Pack32(0) + Pack32(transaction) + Pack64(t.connection)
  }

  function ScrapeReply(stats: Stats, transaction: uint32): Bytes {
    Pack32(2) + Pack32(transaction) + Pack32(stats.seeders) + Pack32(stats.completed) + Pack32(stats.leechers)
  }

  /** It reads the latest request off the wire and answers that. */
  function Serve(t: Tracker, sent: seq<Bytes>): Option<Bytes> {
    if sent == [] then None
    else
      var request := sent[|sent| - 1];
      if |request| < 16 then None
      else
        var connection, action, transaction := Unpack64(request, 0), Unpack32(request, 8), Unpack32(request, 12);
        if connection == 0x417_2710_1980 && action == 0 then Some(ConnectReply(t, transaction))
        else if connection == t.connection && action == 2 && |request| == 36 && request[16..] in t.swarm
        then Some(ScrapeReply(t.swarm[request[16..]], transaction))
        else None
  }

  lemma RequestFields(connection: uint64, action: uint32, transaction: uint32, rest: Bytes)
    ensures var d := Pack64(connection) + Pack32(action) + Pack32(transaction) + rest;
            && |d| == 16 + |rest| && d[16..] == rest
            && Unpack64(d, 0) == connection && Unpack32(d, 8) == action && Unpack32(d, 12) == transaction
  {
    var d := Pack64(connection) + Pack32(action) + Pack32(transaction) + rest;
    Field64([], connection, Pack32(action) + Pack32(transaction) + rest);
    assert d == [] + Pack64(connection) + (Pack32(action) + Pack32(transaction) + rest);
    Field32(Pack64(connection), action, Pack32(transaction) + rest);
    assert d == Pack64(connection) + Pack32(action) + (Pack32(transaction) + rest);
    Field32(Pack64(connection) + Pack32(action), transaction, rest);
  }

  lemma ConnectReplyParses(t: Tracker, transaction: uint32)
    ensures ParseConnectResponse(Received(ConnectReply(t, transaction)), transaction) == Success(t.connection)
  {
    hide Pack32, Pack64, Unpack32, Unpack64;
    var d := ConnectReply(t, transaction);
    Field32([], CONNECT, Pack32(transaction) + Pack64(t.connection));
    assert d == [] + Pack32(CONNECT) + (Pack32(transaction) + Pack64(t.connection));
    Field32(Pack32(CONNECT), transaction, Pack64(t.connection));
    Field64(Pack32(CONNECT) + Pack32(transaction), t.connection, []);
    assert d == Pack32(CONNECT) + Pack32(transaction) + Pack64(t.connection) + [];
  }

  lemma ScrapeReplyParses(stats: Stats, transaction: uint32)
    ensures ParseScrapeResponse(Received(ScrapeReply(stats, transaction)), transaction) == Success(stats)
  {
    hide Pack32, Pack64, Unpack32, Unpack64;
    var d := ScrapeReply(stats, transaction);
    var a, b := Pack32(SCRAPE), Pack32(transaction);
    var s, c, l := Pack32(stats.seeders), Pack32(stats.completed), Pack32(stats.leechers);
    Field32([], SCRAPE, b + s + c + l);
    assert d == [] + a + (b + s + c + l);
    Field32(a, transaction, s + c + l);
    assert d == a + b + (s + c + l);
    Field32(a + b, stats.seeders, c + l);
    assert d == a + b + s + (c + l);
    Field32(a + b + s, stats.completed, l);
    Field32(a + b + s + c, stats.leechers, []);
    assert d == a + b + s + c + l + [];
  }

  /** Against an honest tracker the exchange returns exactly its counts for the hash, for all ids and
      all 32- and 64-bit values. */
  lemma HonestTrackerIsReadExactly(t: Tracker, connectId: uint32, scrapeId: uint32, infoHash: Bytes)
    requires |infoHash| == 20 && infoHash in t.swarm
    ensures Exchange(sent => Serve(t, sent), connectId, scrapeId, infoHash).result == Success(t.swarm[infoHash])
  {
    hide Pack32, Pack64, Unpack32, Unpack64, ParseConnectResponse, ParseScrapeResponse, Received, ConnectReply,
         ScrapeReply;
    var first := ConnectRequest(connectId);
    RequestFields(PROTOCOL_ID, CONNECT, connectId, []);
    assert first == Pack64(PROTOCOL_ID) + Pack32(CONNECT) + Pack32(connectId) + [];
    assert Serve(t, [first]) == Some(ConnectReply(t, connectId));
    ConnectReplyParses(t, connectId);
    var second := Pack64(t.connection) + Pack32(SCRAPE) + Pack32(scrapeId) + infoHash;
    RequestFields(t.connection, SCRAPE, scrapeId, infoHash);
    assert Serve(t, [first, second]) == Some(ScrapeReply(t.swarm[infoHash], scrapeId));
    ScrapeReplyParses(t.swarm[infoHash], scrapeId);
  }

  /** A reply to some other transaction is never taken for an answer, whatever else it says. */
  lemma ForeignRepliesAreRejected(data: Bytes, transaction: uint32)
    requires |data| >= 8 && Unpack32(data, 4) != transaction
    ensures ParseConnectResponse(data, transaction).Failed? && ParseScrapeResponse(data, transaction).Failed?
    ensures !ParseConnectResponse(data, transaction).failure.TrackerError?
    ensures !ParseScrapeResponse(data, transaction).failure.TrackerError?
  {
    hide Unpack32, Unpack64;
  }

  /** The scrape request on the wire: connection id, action 2, transaction id, hash. */
  lemma {:induction false} ScrapeRequestOnTheWire(connection: uint64, transaction: uint32, infoHash: Bytes)
    requires |infoHash| == 20
    ensures ScrapeRequest(connection, transaction, infoHash)
            == Success(Pack64(connection) + [0, 0, 0, 2] + Pack32(transaction) + infoHash)
  {
    BigEndian(2);
  }

  /** Action 3 under the own transaction id is the tracker's own error, with the text behind it, whatever
      was asked. */
  lemma {:induction false} ErrorRepliesAreReported(transaction: uint32, message: Bytes)
    ensures var reply := [0, 0, 0, 3] + Pack32(transaction) + message;
            && ParseConnectResponse(reply, transaction) == Failed(TrackerError(message))
            && ParseScrapeResponse(reply, transaction) == Failed(TrackerError(message))
  {
    BigEndian(3);
    var reply := [0, 0, 0, 3] + Pack32(transaction) + message;
    Field32([], 3, Pack32(transaction) + message);
    assert [] + Pack32(3) + (Pack32(transaction) + message) == reply;
    Field32([0, 0, 0, 3], transaction, message);
    assert reply[8..] == message;
  }

  /** A datagram is read up to 2048 bytes. */
  lemma LongDatagramsAreCut(datagram: Bytes)
    ensures Received(datagram) <= datagram
    ensures |Received(datagram)| == if |datagram| <= 2048 then |datagram| else 2048
  {
  }
}
