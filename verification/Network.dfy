/**
 The world around a connection: a socket, the handlers and the clock. Each is a script that
 says how the next calls turn out, so a theorem about all scripts is a theorem about every
 network schedule, every handler and every producer.
 */
module Network {
  import opened Bytes
  import opened Config
  import opened Responses

  /** How one recv turns out; `Deliver(n)` hands over at most `n` of the bytes on the wire. */
  datatype RecvEvent = Deliver(n: nat) | PeerClosed | WouldBlock | Interrupted | IoFailed

  /** How one send turns out; `Accept(n)` takes at most `n` bytes. */
  datatype SendEvent = Accept(n: nat) | SendBlocked | SendPeerClosed | SendFailed

  /** Bytes still to arrive, and the outcome of the calls to come; an empty script blocks. */
  datatype Net = Net(incoming: bytes, recvs: seq<RecvEvent>, sends: seq<SendEvent>)

  datatype RecvResult = Got(piece: bytes) | Eof | Again | Retry | RecvError

  function AtMost(n: nat, m: nat): nat { if n < m then n else m }

  /** recv with room for `room` bytes. */
  function Recv(n: Net, room: nat): (r: (RecvResult, Net))
    requires room > 0
    ensures r.0.Got? ==> 0 < |r.0.piece| <= room && r.0.piece + r.1.incoming == n.incoming
    ensures !r.0.Got? ==> r.1.incoming == n.incoming
    ensures r.0 != Again ==> |r.1.recvs| < |n.recvs|
    ensures |r.1.recvs| <= |n.recvs| && r.1.sends == n.sends
  {
    if n.recvs == [] then (Again, n)
    else
      var n' := n.(recvs := n.recvs[1..]);
      match n.recvs[0]
      case Deliver(k) =>
        var got := AtMost(AtMost(if k == 0 then 1 else k, room), |n.incoming|);
        if got == 0 then (Again, n')
        else
          assert n.incoming[..got] + n.incoming[got..] == n.incoming;
          (Got(n.incoming[..got]), n'.(incoming := n.incoming[got..]))
      case PeerClosed => (Eof, n')
      case WouldBlock => (Again, n')
      case Interrupted => (Retry, n')
      case IoFailed => (RecvError, n')
  }

  datatype SendResult = Sent(n: nat) | Blocked | Gone | Broken

  /** send of `len` bytes. */
  function Send(n: Net, len: nat): (r: (SendResult, Net))
    ensures r.0.Sent? ==> r.0.n <= len
    ensures r.0 != Blocked ==> |r.1.sends| < |n.sends|
    ensures |r.1.sends| <= |n.sends| && r.1.recvs == n.recvs && r.1.incoming == n.incoming
  {
    if n.sends == [] then (Blocked, n)
    else
      var n' := n.(sends := n.sends[1..]);
      match n.sends[0]
      case Accept(k) => (Sent(AtMost(k, len)), n')
      case SendBlocked => (Blocked, n')
      case SendPeerClosed => (Gone, n')
      case SendFailed => (Broken, n')
  }

  /** A payload that fits the buffer a producer is given. */
  type StreamPayload = p: bytes | 0 < |p| <= STREAM_CHUNK_SIZE witness [0]

  datatype PullEvent = PullOk(data: StreamPayload) | PullFailed

  /** A stream's producer: the pulls to come, end of stream after them, and whether it has a cleanup. */
  datatype Producer = Producer(script: seq<PullEvent>, hasCleanup: bool)

  /** What a handler answers; a stream's response carries only status and headers. */
  datatype Reply = Plain(response: Response) | Stream(response: Response, producer: Producer) {
    function Wire(): Response {
      if Stream? then response.(kind := BodyStream) else response
    }
  }

  const EPOCH: Date := [48]

  datatype World = World(net: Net, replies: seq<Reply>, dates: seq<Date>)

  /** The clock: one reading for each response that is written. */
  function Now(w: World): (Date, World) {
    if w.dates == [] then (EPOCH, w) else (w.dates[0], w.(dates := w.dates[1..]))
  }

  /** The router and its handlers: the reply to the next request, 404 when there is no route. */
  function NextReply(w: World): (Reply, World) {
    if w.replies == [] then (Plain(ErrorResponse(NotFound)), w) else (w.replies[0], w.(replies := w.replies[1..]))
  }
}
