/** Length-prefixed framing: the 4-byte big-endian prefix, the 64 KiB ceiling and the
    incremental decoder that the transport and the codec share.

    The simple form is `Scan`, which reads a whole byte stream at once.  The incremental form
    is `FrameDecoder.Feed`, which keeps `_buffer` and `_expected` between chunks. */
module Framing {
  import opened Models

  type Byte = b: int | 0 <= b < 256
  type Bytes = seq<Byte>

  const PREFIX_BYTES := 4
  const MAX_FRAME_BYTES := 64 * 1024

  datatype FrameFault = OversizedFault

  /** Why a decoder stopped: out of input, an oversize prefix, or a payload the codec rejects. */
  datatype Outcome<+X> = More | Oversize | Rejected(error: X)

  datatype Scanned<+E, +X> = Scanned(items: seq<E>, rest: Bytes, outcome: Outcome<X>)

  /** 256 to the power of `width`. */
  function Ceiling(width: nat): (c: nat)
    ensures c >= 1
  {
    if width == 0 then 1 else Ceiling(width - 1) * 256
  }

  /** Bytes read as one unsigned number, most significant byte first. */
  function BigEndian(p: Bytes): nat {
    if p == [] then 0 else BigEndian(p[..|p| - 1]) * 256 + p[|p| - 1] as int
  }

  function ToBigEndian(n: nat, width: nat): (p: Bytes)
    requires n < Ceiling(width)
    ensures |p| == width && BigEndian(p) == n
  {
    if width == 0 then []
    else
      var high := ToBigEndian(n / 256, width - 1);
      assert (high + [n % 256])[..width - 1] == high;
      high + [n % 256]
  }

  lemma {:induction false} BigEndianIsInjective(p: Bytes)
    ensures BigEndian(p) < Ceiling(|p|) && ToBigEndian(BigEndian(p), |p|) == p
  {
    if p != [] {
      BigEndianIsInjective(p[..|p| - 1]);
    }
  }

  /** The number that four bytes stand for: the first one counts most. */
  function FourBytes(p: Bytes): nat
    requires |p| >= 4
  {
    p[0] as nat * 0x100_0000 + p[1] as nat * 0x1_0000 + p[2] as nat * 0x100 + p[3] as nat
  }

  lemma FourBytesAreBigEndian(p: Bytes)
    requires |p| >= 4
    ensures BigEndian(p[..4]) == FourBytes(p)
  {
    assert p[..4][..3] == p[..3] && p[..3][..2] == p[..2] && p[..2][..1] == p[..1] && p[..1][..0] == [];
    assert BigEndian(p[..1]) == p[0] as nat && BigEndian(p[..2]) == BigEndian(p[..1]) * 256 + p[1] as nat;
    assert BigEndian(p[..3]) == BigEndian(p[..2]) * 256 + p[2] as nat && BigEndian(p[..4]) == BigEndian(p[..3]) * 256 + p[3] as nat;
  }

  /** The 4-byte prefix of a frame whose payload has `n` bytes. */
  function LengthPrefix(n: nat): (p: Bytes)
    requires n <= MAX_FRAME_BYTES
    ensures |p| == PREFIX_BYTES && BigEndian(p) == n
  {
    assert Ceiling(4) == 256 * Ceiling(3) && Ceiling(3) == 256 * Ceiling(2) && Ceiling(2) == 256 * 256;
    ToBigEndian(n, PREFIX_BYTES)
  }

  function Frame(payload: Bytes): (r: Result<Bytes, FrameFault>)
    ensures r.Err? <==> |payload| > MAX_FRAME_BYTES
    ensures r.Ok? ==> |r.value| == PREFIX_BYTES + |payload|
    ensures r.Ok? ==> r.value[PREFIX_BYTES..] == payload && BigEndian(r.value[..PREFIX_BYTES]) == |payload|
    ensures r.Ok? <==> |payload| <= 65_536
    ensures r.Ok? ==> FourBytes(r.value) == |payload| && r.value[4..] == payload
  {
    if |payload| > MAX_FRAME_BYTES then Err(OversizedFault)
    else
      var frame := LengthPrefix(|payload|) + payload;
      FourBytesAreBigEndian(frame);
      Ok(frame)
  }

  // ---------------------------------------------------------------------------
  // The simple form: one pass over the whole stream
  // ---------------------------------------------------------------------------

  /** The first frame of a stream: not all there yet, over the ceiling, or whole. */
  datatype Head = Wait | TooLong | Whole(payload: Bytes, tail: Bytes)

  function FirstFrame(s: Bytes): (h: Head)
    ensures h.Whole? ==> |h.tail| < |s|
    ensures h.Wait? ==> |s| < PREFIX_BYTES + MAX_FRAME_BYTES
  {
    if |s| < PREFIX_BYTES then Wait
    else
      var n := BigEndian(s[..PREFIX_BYTES]);
      if n > MAX_FRAME_BYTES then TooLong
      else if |s| < PREFIX_BYTES + n then Wait
      else Whole(s[PREFIX_BYTES..PREFIX_BYTES + n], s[PREFIX_BYTES + n..])
  }

  /** In bytes: a frame is announced by four bytes, too long over 64 KiB, and whole once that many follow. */
  lemma FirstFrameInBytes(s: Bytes)
    ensures FirstFrame(s) == TooLong <==> |s| >= 4 && FourBytes(s) > 65_536
    ensures FirstFrame(s).Whole? <==> |s| >= 4 && FourBytes(s) <= 65_536 && |s| - 4 >= FourBytes(s)
    ensures FirstFrame(s).Whole? ==> FirstFrame(s) == Whole(s[4..][..FourBytes(s)], s[4..][FourBytes(s)..])
  {
    if |s| >= 4 {
      FourBytesAreBigEndian(s);
    }
  }

  lemma FirstFrameAppend(a: Bytes, b: Bytes)
    ensures FirstFrame(a).TooLong? ==> FirstFrame(a + b).TooLong?
    ensures FirstFrame(a).Whole? ==>
              FirstFrame(a + b) == Whole(FirstFrame(a).payload, FirstFrame(a).tail + b)
  {
    if |a| >= PREFIX_BYTES {
      assert (a + b)[..PREFIX_BYTES] == a[..PREFIX_BYTES];
      var n := BigEndian(a[..PREFIX_BYTES]);
      if |a| >= PREFIX_BYTES + n {
        assert (a + b)[PREFIX_BYTES..PREFIX_BYTES + n] == a[PREFIX_BYTES..PREFIX_BYTES + n];
        assert (a + b)[PREFIX_BYTES + n..] == a[PREFIX_BYTES + n..] + b;
      }
    }
  }

  function Scan<E, X>(s: Bytes, decode: Bytes -> Result<E, X>): Scanned<E, X>
    decreases |s|
  {
    match FirstFrame(s)
    case Wait => Scanned([], s, More)
    case TooLong => Scanned([], s, Oversize)
    case Whole(payload, tail) =>
      match decode(payload)
      case Err(e) => Scanned([], tail, Rejected(e))
      case Ok(v) =>
        After([v], Scan(tail, decode))
  }

  /** The scan `s` with the items of an earlier part in front. */
  function After<E, X>(items: seq<E>, s: Scanned<E, X>): Scanned<E, X> {
    Scanned(items + s.items, s.rest, s.outcome)
  }

  lemma AfterComposes<E, X>(a: seq<E>, b: seq<E>, s: Scanned<E, X>)
    ensures After(a, After(b, s)) == After(a + b, s) && After([], s) == s
  {
    assert a + (b + s.items) == (a + b) + s.items && [] + s.items == s.items;
  }

  /** What the scan of `a` leaves behind decides everything that later bytes can add. */
  lemma {:induction false} ScanAppend<E, X>(a: Bytes, b: Bytes, decode: Bytes -> Result<E, X>)
    ensures var x := Scan(a, decode);
            Scan(a + b, decode) ==
            if x.outcome.Rejected? then Scanned(x.items, x.rest + b, x.outcome)
            else After(x.items, Scan(x.rest + b, decode))
    decreases |a|
  {
    FirstFrameAppend(a, b);
    match FirstFrame(a)
    case Wait =>
      AfterComposes([], [], Scan(a + b, decode));
    case TooLong =>
      AfterComposes([], [], Scan(a + b, decode));
    case Whole(payload, tail) =>
      match decode(payload) {
        case Err(e) =>
        case Ok(v) =>
          ScanAppend(tail, b, decode);
          var t := Scan(tail, decode);
          AfterComposes([v], t.items, Scan(t.rest + b, decode));
      }
  }

  /** A scan that stops for more input, or at the ceiling, stops in front of such a frame. */
  lemma {:induction false} ScanResidual<E, X>(s: Bytes, decode: Bytes -> Result<E, X>)
    ensures var x := Scan(s, decode);
            && (x.outcome.More? ==> FirstFrame(x.rest).Wait?)
            && (x.outcome.Oversize? ==> FirstFrame(x.rest).TooLong?)
    decreases |s|
  {
    if FirstFrame(s).Whole? {
      ScanResidual(FirstFrame(s).tail, decode);
    }
  }

  // ---------------------------------------------------------------------------
  // The incremental form
  // ---------------------------------------------------------------------------

  lemma FirstFrameOfPrefixed(n: nat, buffer: Bytes)
    requires n <= MAX_FRAME_BYTES
    ensures FirstFrame(LengthPrefix(n) + buffer) ==
            if |buffer| < n then Wait else Whole(buffer[..n], buffer[n..])
  {
    var s := LengthPrefix(n) + buffer;
    assert s[..PREFIX_BYTES] == LengthPrefix(n);
    if |buffer| >= n {
      assert s[PREFIX_BYTES..PREFIX_BYTES + n] == buffer[..n];
      assert s[PREFIX_BYTES + n..] == buffer[n..];
    }
  }

  /** `codec.FrameDecoder`; with `decode` the identity it is `backends.posix._RawFrameDecoder`. */
  class FrameDecoder<E, X> {
    const decode: Bytes -> Result<E, X>
    var buffer: Bytes
    var expected: Option<nat>

    /** The bytes consumed from the stream but not yet turned into an item. */
    ghost function Pending(): Bytes
      reads this
      requires Valid()
    {
      if expected.Some? then LengthPrefix(expected.value) + buffer else buffer
    }

    ghost predicate Valid()
      reads this
    {
      expected.Some? ==> expected.value <= MAX_FRAME_BYTES
    }

    constructor (decode: Bytes -> Result<E, X>)
      ensures Valid() && Pending() == [] && this.decode == decode
    {
      this.decode := decode;
      buffer := [];
      expected := None;
    }

    /** One turn of the loop of `Feed`: read the prefix if none is pending, then cut the payload. */
    method Next() returns (head: Head)
      requires Valid()
      modifies this
      ensures Valid()
      ensures head == FirstFrame(old(Pending()))
      ensures Pending() == if head.Whole? then head.tail else old(Pending())
      ensures head.Wait? ==>
                if expected.None? then |buffer| < PREFIX_BYTES
                else |buffer| < expected.value <= MAX_FRAME_BYTES
    {
      ghost var pending := Pending();
      if expected.None? {
        if |buffer| < PREFIX_BYTES {
          return Wait;
        }
        var length := BigEndian(buffer[..PREFIX_BYTES]);
        if length > MAX_FRAME_BYTES {
          return TooLong;
        }
        expected := Some(length);
        buffer := buffer[PREFIX_BYTES..];
        BigEndianIsInjective(pending[..PREFIX_BYTES]);
      }
      assert Pending() == pending;
      FirstFrameOfPrefixed(expected.value, buffer);
      if |buffer| < expected.value {
        return Wait;
      }
      head := Whole(buffer[..expected.value], buffer[expected.value..]);
      buffer := buffer[expected.value..];
      expected := None;
    }

    method Append(data: Bytes)
      requires Valid()
      modifies this`buffer
      ensures Valid() && Pending() == old(Pending()) + data
    {
      ghost var pending := Pending();
      buffer := buffer + data;
      assert expected.Some? ==> LengthPrefix(expected.value) + buffer == pending + data;
    }

    method Feed(data: Bytes) returns (items: seq<E>, outcome: Outcome<X>)
      requires Valid()
      modifies this
      ensures Valid()
      ensures var x := Scan(old(Pending()) + data, decode);
              items == x.items && outcome == x.outcome && Pending() == x.rest
      ensures outcome.More? ==>
                if expected.None? then |buffer| < PREFIX_BYTES
                else |buffer| < expected.value <= MAX_FRAME_BYTES
    {
      ghost var goal := Scan(old(Pending()) + data, decode);
      Append(data);
      items := [];
      AfterComposes<E, X>([], [], goal);
      while true
        invariant Valid()
        invariant goal == After(items, Scan(Pending(), decode))
        decreases |Pending()|
      {
        assert items + [] == items;
        var head := Next();
        match head
        case Wait =>
          return items, More;
        case TooLong =>
          return items, Oversize;
        case Whole(payload, tail) =>
          match decode(payload) {
            case Err(e) =>
              return items, Rejected(e);
            case Ok(v) =>
              AfterComposes(items, [v], Scan(tail, decode));
              items := items + [v];
          }
      }
    }
  }

  // ---------------------------------------------------------------------------
  // Chunking
  // ---------------------------------------------------------------------------

  function Concat(chunks: seq<Bytes>): Bytes {
    if chunks == [] then [] else chunks[0] + Concat(chunks[1..])
  }

  /** Feeding chunk after chunk, by the contract of `FrameDecoder.Feed`, until one fails. */
  function FeedAll<E, X>(pending: Bytes, chunks: seq<Bytes>, decode: Bytes -> Result<E, X>): Scanned<E, X>
    decreases |chunks|
  {
    if chunks == [] then Scanned([], pending, More)
    else
      var x := Scan(pending + chunks[0], decode);
      if !x.outcome.More? then x
      else
        After(x.items, FeedAll(x.rest, chunks[1..], decode))
  }

  /** `pending` is what a decoder waiting for more input holds. */
  ghost predicate Parked<E, X>(pending: Bytes, decode: Bytes -> Result<E, X>) {
    Scan(pending, decode) == Scanned([], pending, More)
  }

  lemma {:induction false} ScanRestIsParked<E, X>(s: Bytes, decode: Bytes -> Result<E, X>)
    requires Scan(s, decode).outcome.More?
    ensures Parked(Scan(s, decode).rest, decode)
  {
    ScanResidual(s, decode);
  }

  /** Chunking invariance: every split of a stream yields the items and the first fault that
      the whole stream yields. */
  lemma {:induction false} ChunkingInvariance<E, X>(pending: Bytes, chunks: seq<Bytes>, decode: Bytes -> Result<E, X>)
    requires Parked(pending, decode)
    ensures var whole := Scan(pending + Concat(chunks), decode);
            var fed := FeedAll(pending, chunks, decode);
            fed.items == whole.items && fed.outcome == whole.outcome
    ensures FeedAll(pending, chunks, decode).outcome.More? ==>
              FeedAll(pending, chunks, decode).rest == Scan(pending + Concat(chunks), decode).rest
    decreases |chunks|
  {
    if chunks == [] {
      assert pending + Concat(chunks) == pending;
    } else {
      var x := Scan(pending + chunks[0], decode);
      var later := Concat(chunks[1..]);
      assert pending + Concat(chunks) == (pending + chunks[0]) + later;
      ScanAppend(pending + chunks[0], later, decode);
      if x.outcome.More? {
        ScanRestIsParked(pending + chunks[0], decode);
        ChunkingInvariance(x.rest, chunks[1..], decode);
      } else if x.outcome.Oversize? {
        OversizeIsSticky(pending + chunks[0], later, decode);
      }
    }
  }

  /** Once a prefix is over the ceiling, whatever is fed later fails again and yields nothing. */
  lemma {:induction false} OversizeIsSticky<E, X>(s: Bytes, more: Bytes, decode: Bytes -> Result<E, X>)
    requires Scan(s, decode).outcome.Oversize?
    ensures Scan(Scan(s, decode).rest + more, decode) == Scanned([], Scan(s, decode).rest + more, Oversize)
  {
    ScanResidual(s, decode);
    FirstFrameAppend(Scan(s, decode).rest, more);
  }

  // ---------------------------------------------------------------------------
  // Round trip
  // ---------------------------------------------------------------------------

  /** The raw decoder of the transport accepts every payload. */
  function Raw(payload: Bytes): Result<Bytes, FrameFault> { Ok(payload) }

  predicate Framable(payloads: seq<Bytes>) {
    forall p <- payloads :: |p| <= MAX_FRAME_BYTES
  }

  function FrameAll(payloads: seq<Bytes>): Bytes
    requires Framable(payloads)
  {
    if payloads == [] then [] else Frame(payloads[0]).value + FrameAll(payloads[1..])
  }

  lemma {:induction false} FrameAllAppend(ps: seq<Bytes>, p: Bytes)
    requires Framable(ps) && |p| <= MAX_FRAME_BYTES
    ensures FrameAll(ps + [p]) == FrameAll(ps) + Frame(p).value
  {
    if ps == [] {
      assert ps + [p] == [p];
      assert [p][1..] == [];
    } else {
      FrameAllAppend(ps[1..], p);
      assert (ps + [p])[1..] == ps[1..] + [p];
      Appending(Frame(ps[0]).value, FrameAll(ps[1..]), Frame(p).value);
    }
  }

  lemma Appending<T>(a: seq<T>, b: seq<T>, c: seq<T>)
    ensures (a + b) + c == a + (b + c)
  {
  }

  lemma FirstFrameOfFramed(payload: Bytes, tail: Bytes)
    requires |payload| <= MAX_FRAME_BYTES
    ensures FirstFrame(Frame(payload).value + tail) == Whole(payload, tail)
  {
    var buffer := payload + tail;
    assert Frame(payload).value + tail == LengthPrefix(|payload|) + buffer;
    FirstFrameOfPrefixed(|payload|, buffer);
    assert buffer[..|payload|] == payload && buffer[|payload|..] == tail;
  }

  lemma ScanOfFramed(payload: Bytes, tail: Bytes)
    requires |payload| <= MAX_FRAME_BYTES
    ensures Scan(Frame(payload).value + tail, Raw) == After([payload], Scan(tail, Raw))
  {
    FirstFrameOfFramed(payload, tail);
  }

  lemma {:induction false} ScanOfFrames(payloads: seq<Bytes>)
    requires Framable(payloads)
    ensures Scan(FrameAll(payloads), Raw) == Scanned(payloads, [], More)
  {
    if payloads != [] {
      ScanOfFramed(payloads[0], FrameAll(payloads[1..]));
      ScanOfFrames(payloads[1..]);
      assert payloads == [payloads[0]] + payloads[1..];
    }
  }

  /** Any chunking of the framed payloads, zero-length ones included, yields them back. */
  lemma FramesRoundTrip(payloads: seq<Bytes>, chunks: seq<Bytes>)
    requires Framable(payloads) && Concat(chunks) == FrameAll(payloads)
    ensures FeedAll([], chunks, Raw) == Scanned(payloads, [], More)
  {
    ScanOfFrames(payloads);
    assert [] + Concat(chunks) == Concat(chunks);
    ChunkingInvariance([], chunks, Raw);
  }

  /** Any chunking of a prefix of the framed payloads yields a prefix of the payloads and no fault. */
  lemma TruncatedFramesYieldPrefix(payloads: seq<Bytes>, chunks: seq<Bytes>)
    requires Framable(payloads) && Concat(chunks) <= FrameAll(payloads)
    ensures var fed := FeedAll([], chunks, Raw); fed.items <= payloads && fed.outcome.More?
  {
    TruncatedScan(payloads, Concat(chunks));
    assert [] + Concat(chunks) == Concat(chunks);
    ChunkingInvariance([], chunks, Raw);
  }

  lemma TruncatedScan(payloads: seq<Bytes>, s: Bytes)
    requires Framable(payloads) && s <= FrameAll(payloads)
    ensures Scan(s, Raw).items <= payloads && Scan(s, Raw).outcome.More?
  {
    var t := FrameAll(payloads);
    assert t == s + t[|s|..];
    ScanOfFrames(payloads);
    ScanAppend(s, t[|s|..], Raw);
    RawNeverRejects(s);
    if Scan(s, Raw).outcome.Oversize? {
      OversizeIsSticky(s, t[|s|..], Raw);
    }
  }

  lemma {:induction false} RawNeverRejects(s: Bytes)
    ensures !Scan(s, Raw).outcome.Rejected?
    decreases |s|
  {
    if FirstFrame(s).Whole? {
      RawNeverRejects(FirstFrame(s).tail);
    }
  }
}
