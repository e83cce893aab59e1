/** One accepted connection of the supervisor: request frames in, reply frames out through a buffer
    that non-blocking sends drain piece by piece, and what the client at the other end can see.  Three
    kinds of request make an exception leave the supervisor's loop; the theorems say which. */
module Connections {
  import opened Models
  import opened Framing
  import opened Registries
  import opened Challenges
  import Codec = EnvelopeCodec

  type Request = Codec.Envelope

  // ---------------------------------------------------------------------------
  // Decoding one payload
  // ---------------------------------------------------------------------------

  /** What reading a payload as UTF-8 JSON comes to; the library also raises errors of its own, as for
      documents nested too deeply. */
  datatype JsonText = NotJson | JsonRaises | Document(json: Codec.Json)

  datatype Library = Library(json: Bytes -> JsonText, iso: Codec.IsoLibrary)

  /** A bad frame ends the connection; the other two are not framing errors, and nobody catches them. */
  datatype CodecFault = BadFrame | UnsupportedProtocol | UncaughtError

  predicate HasSupportedProtocol(fields: map<string, Codec.Json>) {
    "protocol" in fields && fields["protocol"] in {Codec.Text(Codec.PROTOCOL_ID), Codec.Text(Codec.PROTOCOL_ID_V2)}
  }

  function DecodeEnvelope(payload: Bytes, lib: Library, now: Codec.Instant): Result<Request, CodecFault> {
    match lib.json(payload)
    case NotJson => Err(BadFrame)
    case JsonRaises => Err(UncaughtError)
    case Document(data) =>
      if !data.Object? then Err(BadFrame)
      else if !HasSupportedProtocol(data.fields) then Err(UnsupportedProtocol)
      else match Codec.DictToEnvelope(data, now, lib.iso)
        case Ok(e) => Ok(e)
        case Err(Uncaught) => Err(UncaughtError)
        case Err(_) => Err(BadFrame)
  }

  function Decoder(lib: Library, now: Codec.Instant): Bytes -> Result<Request, CodecFault> {
    payload => DecodeEnvelope(payload, lib, now)
  }

  /** Decoding escapes exactly when the library raises an error of its own, the protocol id is not a
      supported one, or a timestamp that is reached is no text or raises in the library. */
  lemma DecodingEscapesIff(payload: Bytes, lib: Library, now: Codec.Instant)
    ensures var r := DecodeEnvelope(payload, lib, now);
            r.Err? && r.error != BadFrame <==>
            match lib.json(payload)
            case NotJson => false
            case JsonRaises => true
            case Document(data) =>
              data.Object? && (|| "protocol" !in data.fields
                               || data.fields["protocol"] !in {Codec.Text("agent-peer/1"), Codec.Text("agent-peer/2")}
                               || (Codec.ReachesTimestamps(data.fields) && Codec.TimestampsRaise(data.fields, lib.iso)))
  {
  }

  // ---------------------------------------------------------------------------
  // Answering one request
  // ---------------------------------------------------------------------------

  /** What a delivery handler did: raised, or returned a text. */
  datatype HandlerOutcome = Raised | Returned(text: string)

  datatype Reply = PongReply | ReceiptReply(state: string) | AliveReply(record: PeerRecord, nonce: string)

  /** One `recv`: nothing there yet, a socket error, or bytes (none at the end of the stream). */
  datatype Received = NotReady | Failed | Data(chunk: Bytes)

  /** One `send` on a non-blocking socket. */
  datatype SendOutcome = Sent(n: nat) | WouldBlock | Broken

  const RECEIPT_STATES: set<string> :=
    {"queued", "held", "refused", "unreachable", "expired", "invalid", "rate_limited", "over_capacity",
     "incompatible", "ambiguous"}

  /** This process: its peers' records, its handlers, and what they do with a request. */
  datatype Local = Local(peers: Records, handlers: set<string>, handle: Request -> HandlerOutcome)

  function NonceOf(r: Request): string { Or(r.conversationId, "") }

  /** The reply to one request, unless building it raises. */
  function Answer(r: Request, l: Local): Option<Reply> {
    var peer := r.recipientPeerId;
    if r.kind.Ping? then Some(PongReply)
    else if r.kind.Discover? then
      if peer !in l.peers then Some(ReceiptReply("unreachable"))
      else if Buildable(l.peers[peer], NonceOf(r)) then Some(AliveReply(l.peers[peer], NonceOf(r)))
      else None
    else if peer !in l.handlers then Some(ReceiptReply("unreachable"))
    else match l.handle(r)
      case Raised => Some(ReceiptReply("invalid"))
      case Returned(text) => Some(ReceiptReply(if text in RECEIPT_STATES then text else "invalid"))
  }

  /** What a request deserves: a ping `pong`; a challenge the record and its own nonce, or `unreachable`
      where the peer is not known; anything else the receipt its handler names, `invalid` if that is none
      or the handler raised, and `unreachable` without a handler. */
  ghost predicate Fits(r: Request, l: Local, reply: Reply) {
    var peer := r.recipientPeerId;
    && (r.kind == Ping ==> reply == PongReply)
    && (r.kind == Discover && peer in l.peers ==>
          reply == AliveReply(l.peers[peer], if r.conversationId == None then "" else r.conversationId.value))
    && (r.kind == Discover && peer !in l.peers ==> reply == ReceiptReply("unreachable"))
    && (r.kind !in {Ping, Discover} && peer !in l.handlers ==> reply == ReceiptReply("unreachable"))
    && (r.kind !in {Ping, Discover} && peer in l.handlers ==>
          match l.handle(r)
          case Raised => reply == ReceiptReply("invalid")
          case Returned(text) => reply == ReceiptReply(if IsReceiptText(text) then text else "invalid"))
  }

  ghost predicate IsReceiptText(text: string) { exists s: ReceiptState :: ReceiptText(s) == text }

  /** The text a receipt state is sent as. */
  function ReceiptText(s: ReceiptState): string {
    match s
    case Queued => "queued"
    case Held => "held"
    case Refused => "refused"
    case Unreachable => "unreachable"
    case Expired => "expired"
    case Invalid => "invalid"
    case RateLimited => "rate_limited"
    case OverCapacity => "over_capacity"
    case Incompatible => "incompatible"
    case Ambiguous => "ambiguous"
  }

  lemma ReceiptStatesAreTexts(text: string)
    ensures text in RECEIPT_STATES <==> IsReceiptText(text)
  {
    if text in RECEIPT_STATES {
      assert ReceiptText(Queued) == "queued" && ReceiptText(Held) == "held" && ReceiptText(Refused) == "refused"
             && ReceiptText(Unreachable) == "unreachable" && ReceiptText(Expired) == "expired";
      assert ReceiptText(Invalid) == "invalid" && ReceiptText(RateLimited) == "rate_limited"
             && ReceiptText(OverCapacity) == "over_capacity" && ReceiptText(Incompatible) == "incompatible"
             && ReceiptText(Ambiguous) == "ambiguous";
    }
  }

  /** Every request gets what it deserves, except a challenge to a registered peer whose identity text is
      over the content ceiling, which gets no answer. */
  lemma AnswerFits(r: Request, l: Local)
    ensures Answer(r, l).None? <==>
            r.kind.Discover? && r.recipientPeerId in l.peers && !Buildable(l.peers[r.recipientPeerId], NonceOf(r))
    ensures Answer(r, l).None? <==>
            && r.kind == Discover && r.recipientPeerId in l.peers
            && Codec.Utf8Length(IdentityText(l.peers[r.recipientPeerId], NonceOf(r))) > 32_768
    ensures Answer(r, l).Some? ==> Fits(r, l, Answer(r, l).value)
  {
    if r.kind !in {Ping, Discover} && r.recipientPeerId in l.handlers && l.handle(r).Returned? {
      ReceiptStatesAreTexts(l.handle(r).text);
    }
  }

  /** A challenge to a registered peer with a nonce of 32 KiB or more, which a frame has room for, gets no
      answer. */
  lemma LongChallengeIsUnanswered(r: Request, l: Local)
    requires r.kind.Discover? && r.recipientPeerId in l.peers && |NonceOf(r)| >= Codec.MAX_CONTENT_BYTES
    ensures Answer(r, l).None?
  {
    OversizeIsNotBuildable(l.peers[r.recipientPeerId], NonceOf(r));
  }

  /** Serialising a reply: message ids, clocks and JSON text are outside this model. */
  type Wire = Reply -> Bytes

  function Payloads(replies: seq<Reply>, wire: Wire): seq<Bytes> {
    seq(|replies|, i requires 0 <= i < |replies| => wire(replies[i]))
  }

  lemma PayloadsAppend(replies: seq<Reply>, r: Reply, wire: Wire)
    ensures Payloads(replies + [r], wire) == Payloads(replies, wire) + [wire(r)]
  {
  }

  ghost predicate Sendable(replies: seq<Reply>, wire: Wire) {
    Framable(Payloads(replies, wire))
  }

  /** One fitting reply per request, in arrival order; `ls[i]` is the process as request `i` found it. */
  ghost predicate AllFit(rs: seq<Request>, ls: seq<Local>, replies: seq<Reply>) {
    |rs| == |replies| == |ls| && forall i :: 0 <= i < |rs| ==> Fits(rs[i], ls[i], replies[i])
  }

  function Times(l: Local, n: nat): seq<Local> { seq(n, _ => l) }

  /** What follows an earlier reply, or is in front of nothing. */
  lemma AllFitAppends(rs: seq<Request>, ls: seq<Local>, replies: seq<Reply>, more: seq<Request>, others: seq<Local>,
          answers: seq<Reply>)
    requires AllFit(rs, ls, replies) && AllFit(more, others, answers)
    ensures AllFit(rs + more, ls + others, replies + answers)
  {
  }

  // ---------------------------------------------------------------------------
  // Serving a stretch of bytes
  // ---------------------------------------------------------------------------

  /** Why an exception left: a payload that could not be decoded, or a request without an answer. */
  datatype Cause = Undecodable(fault: CodecFault) | Unanswered

  /** How the serving of a chunk ends: waiting for more, with a bad frame, or with an exception. */
  datatype Stop = Quiet | Faulty | Escapes(cause: Cause)

  datatype Served = Served(requests: seq<Request>, replies: seq<Reply>, rest: Bytes, stop: Stop)

  type Decode = Bytes -> Result<Request, CodecFault>

  /** Decode a request, answer it, go on; the first fault or missing answer ends it. */
  function Serve(s: Bytes, decode: Decode, l: Local): Served
    decreases |s|
  {
    match FirstFrame(s)
    case Wait => Served([], [], s, Quiet)
    case TooLong => Served([], [], s, Faulty)
    case Whole(payload, tail) =>
      match decode(payload)
      case Err(BadFrame) => Served([], [], tail, Faulty)
      case Err(fault) => Served([], [], tail, Escapes(Undecodable(fault)))
      case Ok(r) =>
        match Answer(r, l)
        case None => Served([r], [], tail, Escapes(Unanswered))
        case Some(reply) => Following([r], [reply], Serve(tail, decode, l))
  }

  function Following(requests: seq<Request>, replies: seq<Reply>, x: Served): Served {
    x.(requests := requests + x.requests, replies := replies + x.replies)
  }

  lemma FollowingComposes(rs: seq<Request>, replies: seq<Reply>, r: seq<Request>, reply: seq<Reply>, x: Served)
    ensures Following(rs, replies, Following(r, reply, x)) == Following(rs + r, replies + reply, x)
  {
    Appending(rs, r, x.requests);
    Appending(replies, reply, x.replies);
  }

  lemma FollowingNothing(x: Served)
    ensures Following([], [], x) == x
  {
    assert [] + x.requests == x.requests && [] + x.replies == x.replies;
  }

  function StopOf(o: Outcome<CodecFault>): Stop {
    match o
    case More => Quiet
    case Oversize => Faulty
    case Rejected(fault) => if fault == BadFrame then Faulty else Escapes(Undecodable(fault))
  }

  predicate AllAnswered(rs: seq<Request>, l: Local) {
    forall i :: 0 <= i < |rs| ==> Answer(rs[i], l).Some?
  }

  /** Each reply is the answer to its request. */
  predicate Answers(rs: seq<Request>, replies: seq<Reply>, l: Local) {
    |replies| <= |rs| && forall i :: 0 <= i < |replies| ==> Answer(rs[i], l) == Some(replies[i])
  }

  /** If every scanned request has an answer, all are answered and the scan's outcome ends the serving;
      otherwise it stops at the first request without one, with all those before it answered, and what
      it leaves is scanned on as if nothing had happened. */
  ghost predicate Follows(x: Scanned<Request, CodecFault>, y: Served, decode: Decode, l: Local) {
    && Answers(y.requests, y.replies, l)
    && (AllAnswered(x.items, l) ==>
          y.requests == x.items && |y.replies| == |x.items| && y.rest == x.rest && y.stop == StopOf(x.outcome))
    && (!AllAnswered(x.items, l) ==>
          && y.stop == Escapes(Unanswered) && |y.requests| == |y.replies| + 1
          && Answer(y.requests[|y.replies|], l).None?
          && x == After(y.requests, Scan(y.rest, decode)))
  }

  lemma {:induction false} ServeFollowsScan(s: Bytes, decode: Decode, l: Local)
    ensures Follows(Scan(s, decode), Serve(s, decode, l), decode, l)
    decreases |s|
  {
    if FirstFrame(s).Whole? && decode(FirstFrame(s).payload).Ok? {
      var r, tail := decode(FirstFrame(s).payload).value, FirstFrame(s).tail;
      AllAnsweredFrom(r, Scan(tail, decode).items, l);
      if Answer(r, l).Some? {
        ServeFollowsScan(tail, decode, l);
        FollowsOneMore(r, Scan(tail, decode), Serve(tail, decode, l), decode, l);
      }
    }
  }

  lemma AllAnsweredFrom(r: Request, items: seq<Request>, l: Local)
    ensures AllAnswered([r] + items, l) <==> Answer(r, l).Some? && AllAnswered(items, l)
  {
    var all := [r] + items;
    assert all[0] == r && forall i :: 0 <= i < |items| ==> all[i + 1] == items[i];
  }

  lemma FollowsOneMore(r: Request, x: Scanned<Request, CodecFault>, y: Served, decode: Decode, l: Local)
    requires Follows(x, y, decode, l) && Answer(r, l).Some?
    ensures Follows(After([r], x), Following([r], [Answer(r, l).value], y), decode, l)
  {
    AllAnsweredFrom(r, x.items, l);
    AfterComposes([r], y.requests, Scan(y.rest, decode));
  }

  lemma NonTextTimestampIsNotDecoded(payload: Bytes, e: Request, key: string, junk: Codec.Json, lib: Library, now: Codec.Instant)
    requires Codec.Encodable(e) && key in {"created_at", "expires_at"} && !junk.Text?
    requires lib.json(payload) == Document(Codec.Object(Codec.EnvelopeToDict(e).fields[key := junk]))
    ensures DecodeEnvelope(payload, lib, now) == Err(UncaughtError)
  {
    Codec.NonTextTimestampIsUncaught(e, key, junk, now, lib.iso);
    Codec.DictCarriesIdentifiers(e);
    assert HasSupportedProtocol(Codec.EnvelopeToDict(e).fields[key := junk]);
  }

  lemma UndecodableEscapes(payload: Bytes, tail: Bytes, decode: Decode, fault: CodecFault, l: Local)
    requires Frame(payload).Ok? && decode(payload) == Err(fault) && fault != BadFrame
    ensures Serve(Frame(payload).value + tail, decode, l) == Served([], [], tail, Escapes(Undecodable(fault)))
  {
    FirstFrameOfFramed(payload, tail);
  }

  /** A frame with a number or null where a timestamp belongs, otherwise the document of any envelope,
      makes an exception leave. */
  lemma NonTextTimestampEscapes(payload: Bytes, e: Request, key: string, junk: Codec.Json, tail: Bytes,
          lib: Library, now: Codec.Instant, l: Local)
    requires Codec.Encodable(e) && key in {"created_at", "expires_at"} && !junk.Text?
    requires Frame(payload).Ok? && lib.json(payload) == Document(Codec.Object(Codec.EnvelopeToDict(e).fields[key := junk]))
    ensures Serve(Frame(payload).value + tail, Decoder(lib, now), l) == Served([], [], tail, Escapes(Undecodable(UncaughtError)))
  {
    NonTextTimestampIsNotDecoded(payload, e, key, junk, lib, now);
    UndecodableEscapes(payload, tail, Decoder(lib, now), UncaughtError, l);
  }

  /** A challenge to a registered peer with a nonce of 32 KiB or more is dispatched, gets no reply, and
      makes an exception leave. */
  lemma LongChallengeEscapes(payload: Bytes, r: Request, tail: Bytes, decode: Decode, l: Local)
    requires Frame(payload).Ok? && decode(payload) == Ok(r)
    requires r.kind.Discover? && r.recipientPeerId in l.peers && |NonceOf(r)| >= Codec.MAX_CONTENT_BYTES
    ensures Serve(Frame(payload).value + tail, decode, l) == Served([r], [], tail, Escapes(Unanswered))
  {
    LongChallengeIsUnanswered(r, l);
    FirstFrameOfFramed(payload, tail);
  }

  lemma AnswersFit(rs: seq<Request>, replies: seq<Reply>, l: Local)
    requires Answers(rs, replies, l)
    ensures AllFit(rs[..|replies|], Times(l, |replies|), replies)
  {
    forall i | 0 <= i < |replies| ensures Fits(rs[i], l, replies[i]) {
      AnswerFits(rs[i], l);
    }
  }

  /** A new reply frame behind the buffer is a new reply behind the stream. */
  lemma FrameJoins(sent: Bytes, buffer: Bytes, replies: seq<Reply>, reply: Reply, wire: Wire)
    requires Sendable(replies, wire) && sent + buffer == FrameAll(Payloads(replies, wire)) && Frame(wire(reply)).Ok?
    ensures Sendable(replies + [reply], wire)
    ensures sent + (buffer + Frame(wire(reply)).value) == FrameAll(Payloads(replies + [reply], wire))
  {
    PayloadsAppend(replies, reply, wire);
    FrameAllAppend(Payloads(replies, wire), wire(reply));
    Appending(sent, buffer, Frame(wire(reply)).value);
  }

  /** Where an open connection stands: everything received was scanned, dispatched and answered, or the
      exception that left says what is missing. */
  ghost predicate Accounted(received: Bytes, pending: Bytes, decode: Decode, dispatched: seq<Request>, ls: seq<Local>,
          replies: seq<Reply>, stalled: Option<Cause>) {
    |ls| == |dispatched| &&
    match stalled
    case None => Scan(received, decode) == Scanned(dispatched, pending, More) && AllFit(dispatched, ls, replies)
    case Some(Undecodable(fault)) =>
      Scan(received, decode) == Scanned(dispatched, pending, Rejected(fault)) && AllFit(dispatched, ls, replies)
    case Some(Unanswered) =>
      && Scan(received, decode) == After(dispatched, Scan(pending, decode))
      && |dispatched| == |replies| + 1 && AllFit(dispatched[..|replies|], ls[..|replies|], replies)
  }

  /** One scan of the bytes meets a request without an answer, or a fault that is no bad frame. */
  ghost predicate EscapesOn(s: Bytes, decode: Decode, l: Local) {
    var x := Scan(s, decode);
    !AllAnswered(x.items, l) || x.outcome in {Rejected(UnsupportedProtocol), Rejected(UncaughtError)}
  }

  lemma ServingEscapesIff(s: Bytes, decode: Decode, l: Local)
    ensures Serve(s, decode, l).stop.Escapes? <==> EscapesOn(s, decode, l)
  {
    var x, y := Scan(s, decode), Serve(s, decode, l);
    ServeFollowsScan(s, decode, l);
    StopEscapesIff(x.outcome);
    assert y.stop == if AllAnswered(x.items, l) then StopOf(x.outcome) else Escapes(Unanswered);
  }

  lemma StopEscapesIff(o: Outcome<CodecFault>)
    ensures StopOf(o).Escapes? <==> o in {Rejected(UnsupportedProtocol), Rejected(UncaughtError)}
  {
  }

  /** Serving one more chunk keeps an open connection accounted for, or says what is now missing. */
  lemma ServedIsAccounted(received: Bytes, pending: Bytes, decode: Decode, dispatched: seq<Request>, ls: seq<Local>,
          replies: seq<Reply>, chunk: Bytes, l: Local)
    requires Accounted(received, pending, decode, dispatched, ls, replies, None)
    ensures var y := Serve(pending + chunk, decode, l);
            && Answers(y.requests, y.replies, l)
            && (y.stop.Faulty? ==> !Scan(received + chunk, decode).outcome.More?)
            && (!y.stop.Faulty? ==>
                  Accounted(received + chunk, y.rest, decode, dispatched + y.requests, ls + Times(l, |y.requests|),
                            replies + y.replies, if y.stop.Escapes? then Some(y.stop.cause) else None))
  {
    var x, y := Scan(pending + chunk, decode), Serve(pending + chunk, decode, l);
    ScanAppend(received, chunk, decode);
    ServeFollowsScan(pending + chunk, decode, l);
    AnswersFit(y.requests, y.replies, l);
    AllFitAppends(dispatched, ls, replies, y.requests[..|y.replies|], Times(l, |y.replies|), y.replies);
    if y.stop == Escapes(Unanswered) {
      AfterComposes(dispatched, y.requests, Scan(y.rest, decode));
      PrefixOfBoth(dispatched, y.requests, |y.replies|);
      PrefixOfBoth(ls, Times(l, |y.requests|), |y.replies|);
      assert Times(l, |y.requests|)[..|y.replies|] == Times(l, |y.replies|);
    } else {
      assert y.requests[..|y.replies|] == y.requests;
    }
  }

  lemma PrefixOfBoth<T>(a: seq<T>, b: seq<T>, k: nat)
    requires k <= |b|
    ensures (a + b)[..|a| + k] == a + b[..k]
  {
  }

  /** How a flush ends: with nothing left to send, or with an answer that was no success; and it closes the
      connection exactly if that answer says that the socket is broken. */
  ghost predicate Drained(before: seq<SendOutcome>, after: seq<SendOutcome>, wasClosed: bool, closed: bool, had: Bytes, left: Bytes) {
    && before <= after
    && (had != [] ==> |after| > |before|)
    && (left != [] ==> |after| > |before| && !after[|after| - 1].Sent?)
    && (closed <==> wasClosed || (|after| > |before| && after[|after| - 1].Broken?))
  }

  class Connection {
    const decoder: FrameDecoder<Request, CodecFault>
    const wire: Wire
    var outBuffer: Bytes
    var closed: bool
    /** Is write interest registered with the selector? */
    var writeInterest: bool
    /** Everything received, every request dispatched and the process as it found it, every reply queued,
        every byte sent, and the exception that left, if one did. */
    ghost var received: Bytes
    ghost var dispatched: seq<Request>
    ghost var locals: seq<Local>
    ghost var replies: seq<Reply>
    ghost var sent: Bytes
    /** What the socket said to every send. */
    ghost var answers: seq<SendOutcome>
    ghost var stalled: Option<Cause>

    /** Bytes sent plus bytes buffered are the reply frames, in order. */
    ghost predicate Conserved()
      reads this
    {
      Sendable(replies, wire) && sent + outBuffer == FrameAll(Payloads(replies, wire))
    }

    ghost predicate Valid()
      reads this, decoder
    {
      && decoder.Valid()
      && Conserved()
      && (!closed ==>
            && (outBuffer != [] ==> writeInterest)
            && Accounted(received, decoder.Pending(), decoder.decode, dispatched, locals, replies, stalled))
    }

    constructor (lib: Library, now: Codec.Instant, wire: Wire)
      ensures Valid() && !closed && stalled == None && received == [] && dispatched == [] && locals == [] && replies == [] && sent == []
      ensures this.wire == wire && decoder.decode == Decoder(lib, now) && fresh(decoder)
    {
      decoder := new FrameDecoder(Decoder(lib, now));
      this.wire := wire;
      outBuffer, closed, writeInterest := [], false, false;
      received, dispatched, locals, replies, sent, answers, stalled := [], [], [], [], [], [], None;
    }

    /** Any answer the socket may give; a send takes at least one byte. */
    method Send(buffer: Bytes) returns (r: SendOutcome)
      requires buffer != []
      modifies this`answers
      ensures r.Sent? ==> 1 <= r.n <= |buffer|
      ensures closed ==> r.Broken?
      ensures answers == old(answers) + [r]
    {
      var n: nat, blocked: bool := *, *;
      if closed {
        r := Broken;
      } else if 1 <= n <= |buffer| {
        r := Sent(n);
      } else {
        r := if blocked then WouldBlock else Broken;
      }
      answers := answers + [r];
    }

    method Drop()
      modifies this`closed
      ensures closed
    {
      closed := true;
    }

    method Flush()
      modifies this`answers, this`outBuffer, this`sent, this`closed, this`writeInterest
      ensures sent + outBuffer == old(sent + outBuffer) && old(sent) <= sent
      ensures old(closed) ==> closed
      ensures !closed ==> (outBuffer != [] <==> writeInterest)
      ensures !closed && !writeInterest ==> outBuffer == []
      ensures Drained(old(answers), answers, old(closed), closed, old(outBuffer), outBuffer)
    {
      while outBuffer != []
        invariant sent + outBuffer == old(sent + outBuffer) && old(sent) <= sent
        invariant closed == old(closed) && old(answers) <= answers
        invariant |answers| > |old(answers)| ==> answers[|answers| - 1].Sent?
        invariant |answers| == |old(answers)| ==> outBuffer == old(outBuffer)
        decreases |outBuffer|
      {
        var r := Send(outBuffer);
        match r
        case WouldBlock =>
          writeInterest := true;
          return;
        case Broken =>
          Drop();
          return;
        case Sent(n) =>
          ghost var all := sent + outBuffer;
          sent := sent + outBuffer[..n];
          outBuffer := outBuffer[n..];
          assert sent + outBuffer == all;
      }
      writeInterest := false;
    }

    /** The writable pass of the loop: flush what is waiting with write interest. */
    method ServiceWritable()
      requires Valid()
      modifies this`answers, this`outBuffer, this`sent, this`closed, this`writeInterest
      ensures Valid() && old(sent) <= sent
      ensures old(closed) ==> sent == old(sent)
      ensures !closed && outBuffer != [] ==> writeInterest
      ensures if old(closed) || old(outBuffer) == [] || !old(writeInterest)
              then answers == old(answers) && closed == old(closed)
              else Drained(old(answers), answers, old(closed), closed, old(outBuffer), outBuffer)
    {
      if !closed && outBuffer != [] && writeInterest {
        Flush();
      }
    }

    /** Queue one reply frame and flush; a reply over the frame ceiling closes the connection. */
    method QueueReply(reply: Reply)
      requires Conserved()
      modifies this`answers, this`outBuffer, this`sent, this`closed, this`writeInterest, this`replies
      ensures Conserved()
      ensures old(closed) ==> closed
      ensures !closed ==> replies == old(replies) + [reply] && (outBuffer != [] ==> writeInterest)
      ensures Frame(wire(reply)).Ok? ==> && replies == old(replies) + [reply]
                                         && Drained(old(answers), answers, old(closed), closed, [0], outBuffer)
      ensures Frame(wire(reply)).Err? ==> closed && replies == old(replies) && answers == old(answers)
      ensures old(sent) <= sent
    {
      match Frame(wire(reply))
      case Err(_) =>
        Drop();
      case Ok(bytes) =>
        FrameJoins(sent, outBuffer, replies, reply, wire);
        outBuffer := outBuffer + bytes;
        replies := replies + [reply];
        Flush();
    }

    /** Answer one request; `raised` says that the answer could not be built. */
    method Dispatch(r: Request, l: Local) returns (raised: bool)
      requires Conserved()
      modifies this`answers, this`outBuffer, this`sent, this`closed, this`writeInterest, this`replies, this`dispatched
      ensures Conserved() && dispatched == old(dispatched) + [r]
      ensures old(closed) ==> closed
      ensures raised <==> Answer(r, l).None?
      ensures raised ==> replies == old(replies) && closed == old(closed) && outBuffer == old(outBuffer) && writeInterest == old(writeInterest)
      ensures !raised && !closed ==> replies == old(replies) + [Answer(r, l).value] && (outBuffer != [] ==> writeInterest)
      ensures !raised && !closed ==>
                Fits(r, l, replies[|old(replies)|])
      ensures old(sent) <= sent
    {
      AnswerFits(r, l);
      dispatched := dispatched + [r];
      var reply := Answer(r, l);
      if reply.None? {
        return true;
      }
      QueueReply(reply.value);
      return false;
    }

    /** Reply `invalid` and close. */
    method Reject()
      requires Conserved()
      modifies this`answers, this`outBuffer, this`sent, this`closed, this`writeInterest, this`replies
      ensures Conserved() && old(sent) <= sent && closed
      ensures replies == if Frame(wire(ReceiptReply("invalid"))).Ok? then old(replies) + [ReceiptReply("invalid")] else old(replies)
    {
      QueueReply(ReceiptReply("invalid"));
      Drop();
    }

    /** One turn of the loop: decode a request and answer it, or stop. */
    method Turn(l: Local) returns (stop: Option<Stop>, ghost r: seq<Request>, ghost reply: seq<Reply>)
      requires decoder.Valid() && Conserved()
      modifies this`answers, this`outBuffer, this`sent, this`closed, this`writeInterest, this`replies, this`dispatched, decoder
      ensures decoder.Valid() && Conserved() && old(sent) <= sent
      ensures old(closed) ==> closed
      ensures dispatched == old(dispatched) + r
      ensures !closed ==> replies == old(replies) + reply && (old(outBuffer != [] ==> writeInterest) ==> outBuffer != [] ==> writeInterest)
      ensures stop.Some? ==>
                Serve(old(decoder.Pending()), decoder.decode, l) == Served(r, reply, decoder.Pending(), stop.value)
      ensures stop.None? ==>
                && |decoder.Pending()| < |old(decoder.Pending())| && |r| == |reply| == 1
                && Serve(old(decoder.Pending()), decoder.decode, l) == Following(r, reply, Serve(decoder.Pending(), decoder.decode, l))
    {
      r, reply := [], [];
      assert dispatched + r == dispatched && replies + reply == replies;
      var head := decoder.Next();
      if head.Wait? {
        return Some(Quiet), r, reply;
      }
      if head.TooLong? {
        return Some(Faulty), r, reply;
      }
      var request := decoder.decode(head.payload);
      if request.Err? {
        return Some(if request.error == BadFrame then Faulty else Escapes(Undecodable(request.error))), r, reply;
      }
      r := [request.value];
      var raised := Dispatch(request.value, l);
      if raised {
        return Some(Escapes(Unanswered)), r, reply;
      }
      return None, r, [Answer(request.value, l).value];
    }

    /** The decoding and dispatching loop: each request is answered before the next one is decoded. */
    method DispatchAll(l: Local) returns (stop: Stop)
      requires decoder.Valid() && Conserved() && (!closed && outBuffer != [] ==> writeInterest)
      modifies this`answers, this`outBuffer, this`sent, this`closed, this`writeInterest, this`replies, this`dispatched, decoder
      ensures decoder.Valid() && Conserved() && old(sent) <= sent
      ensures old(closed) ==> closed
      ensures var y := Serve(old(decoder.Pending()), decoder.decode, l);
              && stop == y.stop && decoder.Pending() == y.rest && dispatched == old(dispatched) + y.requests
              && (!closed ==> replies == old(replies) + y.replies && (outBuffer != [] ==> writeInterest))
    {
      ghost var goal := Serve(decoder.Pending(), decoder.decode, l);
      ghost var rs: seq<Request>, answers: seq<Reply> := [], [];
      FollowingNothing(goal);
      assert dispatched + rs == dispatched && replies + answers == replies;
      while true
        invariant decoder.Valid() && Conserved() && old(sent) <= sent
        invariant old(closed) ==> closed
        invariant goal == Following(rs, answers, Serve(decoder.Pending(), decoder.decode, l))
        invariant dispatched == old(dispatched) + rs
        invariant !closed ==> replies == old(replies) + answers && (outBuffer != [] ==> writeInterest)
        decreases |decoder.Pending()|
      {
        var ended;
        ghost var r, reply;
        ended, r, reply := Turn(l);
        Appending(old(dispatched), rs, r);
        Appending(old(replies), answers, reply);
        if ended.Some? {
          return ended.value;
        }
        FollowingComposes(rs, answers, r, reply, Serve(decoder.Pending(), decoder.decode, l));
        rs, answers := rs + r, answers + reply;
      }
    }

    /** A chunk: decode and dispatch, then deal with a bad frame. */
    method ServiceData(chunk: Bytes, l: Local) returns (stop: Stop)
      requires decoder.Valid() && Conserved() && (!closed && outBuffer != [] ==> writeInterest)
      modifies this`answers, this`outBuffer, this`sent, this`closed, this`writeInterest, this`replies, this`dispatched, this`received,
        this`stalled, decoder
      ensures decoder.Valid() && Conserved() && old(sent) <= sent
      ensures received == old(received) + chunk
      ensures var y := Serve(old(decoder.Pending()) + chunk, decoder.decode, l);
              && stop == y.stop && decoder.Pending() == y.rest && dispatched == old(dispatched) + y.requests
              && (!closed ==> replies == old(replies) + y.replies && (outBuffer != [] ==> writeInterest))
      ensures stop.Faulty? ==> closed
      ensures stop.Faulty? && Frame(wire(ReceiptReply("invalid"))).Ok? ==>
                replies != [] && replies[|replies| - 1] == ReceiptReply("invalid")
      ensures stalled == if stop.Escapes? then Some(stop.cause) else old(stalled)
    {
      received := received + chunk;
      decoder.Append(chunk);
      stop := DispatchAll(l);
      if stop.Faulty? {
        Reject();
      } else if stop.Escapes? {
        stalled := Some(stop.cause);
      }
    }

    /** One readable event.  `escaped` says that an exception left the method, and with it the loop. */
    method Service(arrived: Received, l: Local) returns (escaped: bool)
      requires Valid() && !closed && stalled == None
      modifies this, decoder
      ensures Valid() && old(sent) <= sent && (escaped <==> stalled.Some?)
      ensures received == old(received) + if arrived.Data? then arrived.chunk else []
      ensures arrived == Failed || arrived == Data([]) ==> closed
      ensures escaped <==> arrived.Data? && EscapesOn(old(decoder.Pending()) + arrived.chunk, decoder.decode, l)
      ensures !escaped && arrived.Data? && !Scan(received, decoder.decode).outcome.More? ==> closed
      ensures !closed ==> old(dispatched) <= dispatched && old(replies) <= replies
                          && Answers(dispatched[|old(dispatched)|..], replies[|old(replies)|..], l)
                          && locals == old(locals) + Times(l, |dispatched| - |old(dispatched)|)
    {
      if arrived.Failed? || arrived == Data([]) {
        NothingNewIsQuiet(l);
        Drop();
        return false;
      }
      if arrived.NotReady? {
        assert dispatched[|dispatched|..] == [] && replies[|replies|..] == [];
        return false;
      }
      escaped := Receive(arrived.chunk, l);
    }

    /** What is pending after a quiet end holds no whole frame. */
    lemma NothingNewIsQuiet(l: Local)
      requires Valid() && !closed && stalled == None
      ensures !EscapesOn(decoder.Pending() + [], decoder.decode, l)
    {
      assert decoder.Pending() + [] == decoder.Pending() && received + [] == received;
      ScanAppend(received, [], decoder.decode);
    }

    /** Serve a chunk and account for it. */
    method Receive(chunk: Bytes, l: Local) returns (escaped: bool)
      requires Valid() && !closed && stalled == None
      modifies this, decoder
      ensures Valid() && old(sent) <= sent && received == old(received) + chunk && (escaped <==> stalled.Some?)
      ensures escaped <==> EscapesOn(old(decoder.Pending()) + chunk, decoder.decode, l)
      ensures !escaped && !Scan(received, decoder.decode).outcome.More? ==> closed
      ensures !closed ==> old(dispatched) <= dispatched && old(replies) <= replies
                          && Answers(dispatched[|old(dispatched)|..], replies[|old(replies)|..], l)
                          && locals == old(locals) + Times(l, |dispatched| - |old(dispatched)|)
    {
      ghost var y := Serve(decoder.Pending() + chunk, decoder.decode, l);
      ServedIsAccounted(received, decoder.Pending(), decoder.decode, dispatched, locals, replies, chunk, l);
      ServingEscapesIff(decoder.Pending() + chunk, decoder.decode, l);
      var stop := ServiceData(chunk, l);
      locals := locals + Times(l, |y.requests|);
      return stop.Escapes?;
    }
  }

  // ---------------------------------------------------------------------------
  // End to end
  // ---------------------------------------------------------------------------

  lemma AccountedFits(received: Bytes, pending: Bytes, decode: Decode, dispatched: seq<Request>, ls: seq<Local>,
          replies: seq<Reply>, stalled: Option<Cause>)
    requires Accounted(received, pending, decode, dispatched, ls, replies, stalled)
    ensures var items := Scan(received, decode).items;
            && (AllFit(items, ls, replies) <==> stalled != Some(Unanswered))
            && |replies| <= |items| && |replies| <= |ls| && AllFit(items[..|replies|], ls[..|replies|], replies)
  {
    var items := Scan(received, decode).items;
    if stalled == Some(Unanswered) {
      assert items[..|replies|] == dispatched[..|replies|];
    } else {
      assert items[..|replies|] == items && ls[..|replies|] == ls;
    }
  }

  /** However the requests were cut into chunks, however the sends were cut short, and however the
      client reads: what the client decodes is a prefix of the queued replies, without a fault.  On an
      open connection the replies are, one by one, fitting answers to the requests that one scan of
      everything received yields, each judged by the process as it was found, exactly unless building an
      answer raised. */
  lemma ClientSeesReplies(c: Connection, chunks: seq<Bytes>)
    requires c.Valid() && Concat(chunks) <= c.sent
    ensures var seen := FeedAll([], chunks, Raw);
            && seen.outcome.More?
            && seen.items <= Payloads(c.replies, c.wire)
            && (!c.closed && c.outBuffer == [] && Concat(chunks) == c.sent ==> seen.items == Payloads(c.replies, c.wire))
    ensures !c.closed ==> (AllFit(Scan(c.received, c.decoder.decode).items, c.locals, c.replies) <==> c.stalled != Some(Unanswered))
    ensures !c.closed ==>
              var items := Scan(c.received, c.decoder.decode).items;
              |c.replies| <= |items| && |c.replies| <= |c.locals|
              && AllFit(items[..|c.replies|], c.locals[..|c.replies|], c.replies)
  {
    var payloads := Payloads(c.replies, c.wire);
    assert Concat(chunks) <= FrameAll(payloads) by {
      assert FrameAll(payloads)[..|c.sent|] == c.sent;
    }
    TruncatedFramesYieldPrefix(payloads, chunks);
    if c.outBuffer == [] && Concat(chunks) == c.sent {
      assert c.sent + [] == c.sent;
      FramesRoundTrip(payloads, chunks);
    }
    if !c.closed {
      AccountedFits(c.received, c.decoder.Pending(), c.decoder.decode, c.dispatched, c.locals, c.replies, c.stalled);
    }
  }
}
