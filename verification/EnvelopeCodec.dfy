/** Envelopes as JSON trees: the UTC timestamp text (date-time of section 5.6 of RFC 3339), the
    encoder, the validating decoder with the three ways in which it fails, and the round trip.  JSON
    text and the timestamp shapes that the encoder never writes belong to Python's libraries; what
    these make of a text is a parameter. */
module EnvelopeCodec {
  import opened Models

  const PROTOCOL_ID := "agent-peer/1"
  const PROTOCOL_ID_V2 := "agent-peer/2"
  const MAX_CONTENT_BYTES := 32 * 1024
  const MAX_HOP_COUNT := 4

  // ---------------------------------------------------------------------------
  // Decimal fields
  // ---------------------------------------------------------------------------

  predicate IsDigit(c: char) { '0' <= c <= '9' }

  function PowerOfTen(width: nat): (p: nat)
    ensures p >= 1
  {
    if width == 0 then 1 else 10 * PowerOfTen(width - 1)
  }

  /** `n` in decimal, padded with zeros to exactly `width` characters. */
  function Padded(n: nat, width: nat): (s: string)
    requires n < PowerOfTen(width)
    ensures |s| == width
  {
    if width == 0 then "" else Padded(n / 10, width - 1) + [(n % 10 + 48) as char]
  }

  function ParseNat(s: string): Option<nat> {
    if s == "" then Some(0)
    else
      var c := s[|s| - 1];
      match ParseNat(s[..|s| - 1])
      case None => None
      case Some(high) => if IsDigit(c) then Some(high * 10 + (c as int - 48)) else None
  }

  lemma {:induction false} PaddedParses(n: nat, width: nat)
    requires n < PowerOfTen(width)
    ensures ParseNat(Padded(n, width)) == Some(n)
  {
    if width > 0 {
      PaddedParses(n / 10, width - 1);
      assert Padded(n, width)[..width - 1] == Padded(n / 10, width - 1);
    }
  }

  /** One fixed-width decimal field and the literal text behind it. */
  datatype Field = Field(width: nat, literal: string)

  const ISO_LAYOUT := [Field(4, "-"), Field(2, "-"), Field(2, "T"), Field(2, ":"), Field(2, ":"), Field(2, "."), Field(6, "")]

  predicate Fits(values: seq<nat>, layout: seq<Field>) {
    |values| == |layout| && forall i :: 0 <= i < |layout| ==> values[i] < PowerOfTen(layout[i].width)
  }

  function PrintFields(values: seq<nat>, layout: seq<Field>): string
    requires Fits(values, layout)
  {
    if layout == [] then ""
    else Padded(values[0], layout[0].width) + layout[0].literal + PrintFields(values[1..], layout[1..])
  }

  function ParseFields(s: string, layout: seq<Field>): Option<seq<nat>> {
    if layout == [] then (if s == "" then Some([]) else None)
    else
      var w, e := layout[0].width, layout[0].width + |layout[0].literal|;
      if |s| < e || s[w..e] != layout[0].literal then None
      else
        match (ParseNat(s[..w]), ParseFields(s[e..], layout[1..]))
        case (Some(n), Some(rest)) => Some([n] + rest)
        case _ => None
  }

  lemma {:induction false} FieldsRoundTrip(values: seq<nat>, layout: seq<Field>)
    requires Fits(values, layout)
    ensures ParseFields(PrintFields(values, layout), layout) == Some(values)
  {
    if layout != [] {
      var w, e := layout[0].width, layout[0].width + |layout[0].literal|;
      var s := PrintFields(values, layout);
      assert s[..w] == Padded(values[0], w);
      assert s[w..e] == layout[0].literal;
      assert s[e..] == PrintFields(values[1..], layout[1..]);
      PaddedParses(values[0], w);
      FieldsRoundTrip(values[1..], layout[1..]);
      assert values == [values[0]] + values[1..];
    }
  }

  // ---------------------------------------------------------------------------
  // Timestamps
  // ---------------------------------------------------------------------------

  /** A UTC instant with microsecond precision. */
  datatype Instant = Instant(year: nat, month: nat, day: nat, hour: nat, minute: nat, second: nat, micro: nat)

  function DaysIn(year: nat, month: nat): nat {
    if month == 2 then (if year % 4 == 0 && (year % 100 != 0 || year % 400 == 0) then 29 else 28)
    else if month in {4, 6, 9, 11} then 30
    else 31
  }

  predicate ValidInstant(t: Instant) {
    && 1 <= t.year <= 9999
    && 1 <= t.month <= 12
    && 1 <= t.day <= DaysIn(t.year, t.month)
    && t.hour < 24 && t.minute < 60 && t.second < 60 && t.micro < 1_000_000
  }

  /** The years whose `strftime` text has four digits on every platform. */
  predicate FourDigitYear(t: Instant) { t.year >= 1000 }

  function Values(t: Instant): seq<nat> {
    [t.year, t.month, t.day, t.hour, t.minute, t.second, t.micro]
  }

  predicate Earlier(a: seq<nat>, b: seq<nat>)
    requires |a| == |b|
  {
    a != [] && (a[0] < b[0] || (a[0] == b[0] && Earlier(a[1..], b[1..])))
  }

  predicate Before(a: Instant, b: Instant) { Earlier(Values(a), Values(b)) }

  lemma {:induction false} EarlierIsStrictOrder(a: seq<nat>, b: seq<nat>)
    requires |a| == |b|
    ensures a == b <==> !Earlier(a, b) && !Earlier(b, a)
    ensures !(Earlier(a, b) && Earlier(b, a))
    decreases |a|
  {
    if a != [] {
      EarlierIsStrictOrder(a[1..], b[1..]);
      assert a == [a[0]] + a[1..] && b == [b[0]] + b[1..];
    }
  }

  lemma InstantFits(t: Instant)
    requires ValidInstant(t)
    ensures Fits(Values(t), ISO_LAYOUT)
  {
    assert PowerOfTen(2) == 10 * PowerOfTen(1) && PowerOfTen(1) == 10;
    assert PowerOfTen(4) == 10 * PowerOfTen(3) && PowerOfTen(3) == 10 * PowerOfTen(2);
    assert PowerOfTen(6) == 10 * PowerOfTen(5) && PowerOfTen(5) == 10 * PowerOfTen(4);
  }

  function Rfc3339(t: Instant): string
    requires ValidInstant(t) && FourDigitYear(t)
  {
    InstantFits(t);
    PrintFields(Values(t), ISO_LAYOUT) + "Z"
  }

  /** What reading a timestamp text comes to: an instant, a `ValueError`, or another exception, as when
      the conversion to UTC leaves the calendar. */
  datatype Reading = At(t: Instant) | Unreadable | Raises

  /** What the library makes of the texts whose shape the encoder does not write. */
  type IsoLibrary = string -> Reading

  /** The one shape that the encoder writes: seconds, microseconds, offset. */
  function FromPlainIso(text: string): Option<Instant> {
    var cut := |text| - 6;
    if cut < 0 || text[cut..] != "+00:00" then None
    else
      match ParseFields(text[..cut], ISO_LAYOUT)
      case None => None
      case Some(v) =>
        if |v| != 7 then None
        else
          var t := Instant(v[0], v[1], v[2], v[3], v[4], v[5], v[6]);
          if ValidInstant(t) then Some(t) else None
  }

  function FromIsoFormat(text: string, iso: IsoLibrary): Reading {
    match FromPlainIso(text)
    case Some(t) => At(t)
    case None => iso(text)
  }

  function ParseRfc3339(value: string, iso: IsoLibrary): Reading {
    if value != "" && value[|value| - 1] == 'Z' then FromIsoFormat(value[..|value| - 1] + "+00:00", iso)
    else FromIsoFormat(value, iso)
  }

  lemma TimestampRoundTrip(t: Instant, iso: IsoLibrary)
    requires ValidInstant(t) && FourDigitYear(t)
    ensures ParseRfc3339(Rfc3339(t), iso) == At(t)
  {
    InstantFits(t);
    var body := PrintFields(Values(t), ISO_LAYOUT);
    var text := body + "+00:00";
    assert Rfc3339(t)[..|body|] == body;
    assert text[|text| - 6..] == "+00:00" && text[..|text| - 6] == body;
    FieldsRoundTrip(Values(t), ISO_LAYOUT);
  }

  // ---------------------------------------------------------------------------
  // What the text looks like
  // ---------------------------------------------------------------------------

  function DigitAt(s: string, i: nat): int
    requires i < |s|
  {
    s[i] as int - '0' as int
  }

  function TwoDigits(s: string, i: nat): int
    requires i + 2 <= |s|
  {
    10 * DigitAt(s, i) + DigitAt(s, i + 1)
  }

  lemma PaddedOne(n: nat)
    requires n < 10
    ensures PowerOfTen(1) == 10 && Padded(n, 1) == [(n + 48) as char]
  {
  }

  lemma PaddedTwo(n: nat)
    requires n < 100
    ensures n < PowerOfTen(2) && Padded(n, 2) == [(n / 10 + 48) as char, (n % 10 + 48) as char]
  {
    PaddedOne(n / 10);
    assert PowerOfTen(2) == 100;
  }

  /** Two digits more, from the left. */
  lemma PaddedSplit(n: nat, width: nat)
    requires n < PowerOfTen(width + 2)
    ensures n / 100 < PowerOfTen(width) && n % 100 < PowerOfTen(2)
    ensures Padded(n, width + 2) == Padded(n / 100, width) + Padded(n % 100, 2)
  {
    PaddedTwo(n % 100);
    assert PowerOfTen(width + 2) == 10 * PowerOfTen(width + 1);
    assert PowerOfTen(width + 1) == 10 * PowerOfTen(width);
    assert n / 10 / 10 == n / 100 && n / 10 % 10 == n % 100 / 10 && n % 10 == n % 100 % 10;
    assert Padded(n, width + 2) == Padded(n / 10, width + 1) + [(n % 10 + 48) as char];
    assert Padded(n / 10, width + 1) == Padded(n / 10 / 10, width) + [(n / 10 % 10 + 48) as char];
  }

  /** Is this the text of `t`, read from left to right as people read it? */
  ghost predicate Reads(s: string, t: Instant) {
    |s| == 27 && ReadsDate(s, t) && ReadsClock(s[11..], t) && s[26] == 'Z'
  }

  ghost predicate ReadsDate(s: string, t: Instant)
    requires |s| >= 11
  {
    && t.year == 100 * TwoDigits(s, 0) + TwoDigits(s, 2) && s[4] == '-'
    && t.month == TwoDigits(s, 5) && s[7] == '-'
    && t.day == TwoDigits(s, 8) && s[10] == 'T'
  }

  ghost predicate ReadsClock(s: string, t: Instant)
    requires |s| >= 15
  {
    && t.hour == TwoDigits(s, 0) && s[2] == ':'
    && t.minute == TwoDigits(s, 3) && s[5] == ':'
    && t.second == TwoDigits(s, 6) && s[8] == '.'
    && t.micro == 10_000 * TwoDigits(s, 9) + 100 * TwoDigits(s, 11) + TwoDigits(s, 13)
  }

  lemma MonthReads(t: Instant, rest: string)
    requires ValidInstant(t) && t.month < PowerOfTen(2) && t.day < PowerOfTen(2)
    ensures var s := Padded(t.month, 2) + "-" + (Padded(t.day, 2) + "T" + rest);
            && |s| == 6 + |rest| && s[6..] == rest
            && t.month == TwoDigits(s, 0) && s[2] == '-' && t.day == TwoDigits(s, 3) && s[5] == 'T'
  {
    PaddedTwo(t.month);
    PaddedTwo(t.day);
  }

  lemma DateReads(t: Instant, rest: string)
    requires ValidInstant(t) && t.year < PowerOfTen(4) && t.month < PowerOfTen(2) && t.day < PowerOfTen(2)
    ensures var s := Padded(t.year, 4) + "-" + (Padded(t.month, 2) + "-" + (Padded(t.day, 2) + "T" + rest));
            |s| == 11 + |rest| && ReadsDate(s, t) && s[11..] == rest
  {
    PaddedSplit(t.year, 2);
    PaddedTwo(t.year / 100);
    PaddedTwo(t.year % 100);
    MonthReads(t, rest);
    var tail := Padded(t.month, 2) + "-" + (Padded(t.day, 2) + "T" + rest);
    var s := Padded(t.year, 4) + "-" + tail;
    assert forall i :: 0 <= i < |tail| ==> s[5 + i] == tail[i];
    assert s[11..] == tail[6..];
  }

  lemma ClockReads(t: Instant)
    requires ValidInstant(t) && t.hour < PowerOfTen(2) && t.minute < PowerOfTen(2) && t.second < PowerOfTen(2) && t.micro < PowerOfTen(6)
    ensures var s := Padded(t.hour, 2) + ":" + (Padded(t.minute, 2) + ":" + (Padded(t.second, 2) + "." + Padded(t.micro, 6)));
            |s| == 15 && ReadsClock(s, t)
  {
    PaddedTwo(t.hour);
    PaddedTwo(t.minute);
    PaddedTwo(t.second);
    PaddedSplit(t.micro, 4);
    PaddedSplit(t.micro / 100, 2);
    PaddedTwo(t.micro / 100 / 100);
    PaddedTwo(t.micro / 100 % 100);
    PaddedTwo(t.micro % 100);
  }

  lemma ReadsInFront(s: string, more: string, t: Instant)
    requires |s| == 26 && ReadsDate(s, t) && ReadsClock(s[11..], t) && more == "Z"
    ensures Reads(s + more, t)
  {
    assert forall i :: 0 <= i < 11 ==> (s + more)[i] == s[i];
    assert forall i :: 0 <= i < 15 ==> (s + more)[11..][i] == s[11..][i];
  }

  lemma PrintedFirst(values: seq<nat>, layout: seq<Field>)
    requires Fits(values, layout) && layout != []
    ensures PrintFields(values, layout) == Padded(values[0], layout[0].width) + layout[0].literal + PrintFields(values[1..], layout[1..])
  {
  }

  /** The second half of the text: the time of day. */
  lemma ClockText(t: Instant)
    requires ValidInstant(t)
    ensures Fits(Values(t)[3..], ISO_LAYOUT[3..])
    ensures PrintFields(Values(t)[3..], ISO_LAYOUT[3..]) ==
            Padded(t.hour, 2) + ":" + (Padded(t.minute, 2) + ":" + (Padded(t.second, 2) + "." + Padded(t.micro, 6)))
  {
    InstantFits(t);
    var v, f := Values(t), ISO_LAYOUT;
    assert v[3..][1..] == v[4..] && v[4..][1..] == v[5..] && v[5..][1..] == v[6..] && v[6..][1..] == [];
    assert f[3..][1..] == f[4..] && f[4..][1..] == f[5..] && f[5..][1..] == f[6..] && f[6..][1..] == [];
    PrintedFirst(v[3..], f[3..]);
    PrintedFirst(v[4..], f[4..]);
    PrintedFirst(v[5..], f[5..]);
    PrintedFirst(v[6..], f[6..]);
    assert Padded(t.micro, 6) + "" + "" == Padded(t.micro, 6);
  }

  lemma DateText(t: Instant)
    requires ValidInstant(t)
    ensures Fits(Values(t), ISO_LAYOUT) && Fits(Values(t)[3..], ISO_LAYOUT[3..])
    ensures PrintFields(Values(t), ISO_LAYOUT) ==
            Padded(t.year, 4) + "-" + (Padded(t.month, 2) + "-" + (Padded(t.day, 2) + "T" + PrintFields(Values(t)[3..], ISO_LAYOUT[3..])))
  {
    InstantFits(t);
    var v, f := Values(t), ISO_LAYOUT;
    assert v[1..][1..] == v[2..] && v[2..][1..] == v[3..] && f[1..][1..] == f[2..] && f[2..][1..] == f[3..];
    PrintedFirst(v, f);
    PrintedFirst(v[1..], f[1..]);
    PrintedFirst(v[2..], f[2..]);
  }

  /** The timestamp text is the one that section 5.6 of RFC 3339 prescribes for UTC. */
  lemma TimestampReads(t: Instant)
    requires ValidInstant(t) && FourDigitYear(t)
    ensures Reads(Rfc3339(t), t)
  {
    DateText(t);
    ClockText(t);
    InstantFits(t);
    assert forall i :: 0 <= i < 7 ==> Values(t)[i] < PowerOfTen(ISO_LAYOUT[i].width);
    DateReads(t, PrintFields(Values(t)[3..], ISO_LAYOUT[3..]));
    ClockReads(t);
    ReadsInFront(PrintFields(Values(t), ISO_LAYOUT), "Z", t);
  }

  // ---------------------------------------------------------------------------
  // Envelopes
  // ---------------------------------------------------------------------------

  /** A JSON value; `Other` is every array, boolean and fraction, which no envelope field takes. */
  datatype Json = Null | Number(i: int) | Text(s: string) | Object(fields: map<string, Json>) | Other

  datatype Identity = Identity(peerId: string, name: string, profile: string)

  datatype Envelope = Envelope(
    protocol: string, messageId: string, createdAt: Instant, expiresAt: Instant,
    sender: Identity, recipientPeerId: string, kind: Kind, content: string,
    replyTo: Option<string>, conversationId: Option<string>, hopCount: int)

  /** `Uncaught` is an exception outside the family that the decoder's callers expect. */
  datatype DecodeFault = Malformed | EnvelopeExpired | Uncaught

  predicate IsHex(c: char) { IsDigit(c) || 'a' <= c <= 'f' || 'A' <= c <= 'F' }

  /** The pattern ends in `$`, which also matches in front of one final newline. */
  predicate IsUuid(s: string) {
    && (|s| == 36 || (|s| == 37 && s[36] == '\n'))
    && forall i :: 0 <= i < 36 ==> if i in {8, 13, 18, 23} then s[i] == '-' else IsHex(s[i])
  }

  predicate IsHexText(s: string) { forall c <- s :: c in "0123456789abcdefABCDEF" }

  lemma HexTextIsHex(s: string)
    ensures IsHexText(s) <==> forall i :: 0 <= i < |s| ==> IsHex(s[i])
  {
    forall c: char ensures c in "0123456789abcdefABCDEF" <==> IsHex(c) {
    }
    assert forall i :: 0 <= i < |s| ==> s[i] in s;
  }

  /** Five groups of hexadecimal digits, of 8, 4, 4, 4 and 12, and at most a line feed behind them. */
  ghost predicate InGroups(s: string, a: string, b: string, c: string, d: string, e: string) {
    && |a| == 8 && |b| == |c| == |d| == 4 && |e| == 12
    && IsHexText(a) && IsHexText(b) && IsHexText(c) && IsHexText(d) && IsHexText(e)
    && var id := a + "-" + b + "-" + c + "-" + d + "-" + e;
    s == id || s == id + "\n"
  }

  lemma UuidIsInGroups(s: string)
    requires IsUuid(s)
    ensures InGroups(s, s[..8], s[9..13], s[14..18], s[19..23], s[24..36])
  {
    HexTextIsHex(s[..8]);
    HexTextIsHex(s[9..13]);
    HexTextIsHex(s[14..18]);
    HexTextIsHex(s[19..23]);
    HexTextIsHex(s[24..36]);
    assert s[..36] == s[..8] + "-" + s[9..13] + "-" + s[14..18] + "-" + s[19..23] + "-" + s[24..36];
    assert |s| == 36 ==> s == s[..36];
    assert |s| == 37 ==> s == s[..36] + "\n";
  }

  lemma GroupsMakeUuids(s: string, a: string, b: string, c: string, d: string, e: string)
    requires InGroups(s, a, b, c, d, e)
    ensures IsUuid(s)
  {
    HexTextIsHex(a);
    HexTextIsHex(b);
    HexTextIsHex(c);
    HexTextIsHex(d);
    HexTextIsHex(e);
    assert s[..8] == a && s[9..13] == b && s[14..18] == c && s[19..23] == d && s[24..36] == e;
    forall i | 0 <= i < 36 ensures if i in {8, 13, 18, 23} then s[i] == '-' else IsHex(s[i]) {
      if i < 8 {
        assert s[i] == a[i];
      } else if 9 <= i < 13 {
        assert s[i] == b[i - 9];
      } else if 14 <= i < 18 {
        assert s[i] == c[i - 14];
      } else if 19 <= i < 23 {
        assert s[i] == d[i - 19];
      } else if 24 <= i {
        assert s[i] == e[i - 24];
      }
    }
  }

  /** How many code points `n` bytes of UTF-8 have room for: 7 bits in one byte, 5 more in each further
      one, and one more (section 3 of RFC 3629). */
  function RoomInUtf8(n: nat): nat { if n <= 1 then 0x80 else if n == 2 then 0x800 else RoomInUtf8(n - 1) * 32 }

  lemma Utf8LengthIsLeast(c: char, n: nat)
    requires 1 <= n <= 4
    ensures Utf8Length([c]) <= n <==> c as int < RoomInUtf8(n)
  {
    assert [c][1..] == [];
    assert RoomInUtf8(3) == 0x1_0000 && RoomInUtf8(4) == 0x20_0000;
  }

  lemma {:induction false} Utf8LengthAdds(s: string, t: string)
    ensures Utf8Length(s + t) == Utf8Length(s) + Utf8Length(t)
  {
    if s == "" {
      assert s + t == t;
    } else {
      assert (s + t)[1..] == s[1..] + t;
      Utf8LengthAdds(s[1..], t);
    }
  }

  function Utf8Length(s: string): nat {
    if s == "" then 0
    else
      var c := s[0] as int;
      (if c < 0x80 then 1 else if c < 0x800 then 2 else if c < 0x1_0000 then 3 else 4) + Utf8Length(s[1..])
  }

  /** What the constructor of `Envelope` demands of each field by itself. */
  predicate HasValidFields(e: Envelope) {
    && e.protocol in {PROTOCOL_ID, PROTOCOL_ID_V2}
    && IsUuid(e.messageId)
    && ValidInstant(e.createdAt) && ValidInstant(e.expiresAt)
    && IsUuid(e.sender.peerId)
    && IsUuid(e.recipientPeerId)
    && Utf8Length(e.content) <= MAX_CONTENT_BYTES
    && (e.replyTo.Some? ==> IsUuid(e.replyTo.value))
    && 0 <= e.hopCount <= MAX_HOP_COUNT
  }

  /** What the constructor of `Envelope` accepts. */
  predicate ValidEnvelope(e: Envelope) { HasValidFields(e) && Before(e.createdAt, e.expiresAt) }

  /** A valid envelope whose timestamps have one text on every platform. */
  predicate Encodable(e: Envelope) {
    ValidEnvelope(e) && FourDigitYear(e.createdAt) && FourDigitYear(e.expiresAt)
  }

  predicate Expired(e: Envelope, now: Instant) { !Before(now, e.expiresAt) }

  function KindText(k: Kind): string {
    match k
    case Ping => "ping"
    case Pong => "pong"
    case Message => "message"
    case Receipt => "receipt"
    case Discover => "discover"
    case Alive => "alive"
  }

  function KindOf(s: string): Option<Kind> {
    if s == "ping" then Some(Ping)
    else if s == "pong" then Some(Pong)
    else if s == "message" then Some(Message)
    else if s == "receipt" then Some(Receipt)
    else if s == "discover" then Some(Discover)
    else if s == "alive" then Some(Alive)
    else None
  }

  function OptionalText(o: Option<string>): Json {
    if o.Some? then Text(o.value) else Null
  }

  function EnvelopeToDict(e: Envelope): Json
    requires Encodable(e)
  {
    Object(map[
      "protocol" := Text(e.protocol),
      "message_id" := Text(e.messageId),
      "created_at" := Text(Rfc3339(e.createdAt)),
      "expires_at" := Text(Rfc3339(e.expiresAt)),
      "sender" := Object(map[
        "peer_id" := Text(e.sender.peerId), "name" := Text(e.sender.name), "profile" := Text(e.sender.profile)]),
      "recipient_peer_id" := Text(e.recipientPeerId),
      "kind" := Text(KindText(e.kind)),
      "content" := Text(e.content),
      "reply_to" := OptionalText(e.replyTo),
      "conversation_id" := OptionalText(e.conversationId),
      "hop_count" := Number(e.hopCount)])
  }

  // Reading one field: the value, or the fault a missing key or a wrong type becomes.

  function TextField(fields: map<string, Json>, key: string): Option<string> {
    if key in fields && fields[key].Text? then Some(fields[key].s) else None
  }

  /** `dict.get(key, "")` followed by the constructor's check that the value is a string. */
  function TextOrEmpty(fields: map<string, Json>, key: string): Option<string> {
    if key in fields then TextField(fields, key) else Some("")
  }

  /** `dict.get(key)` followed by the constructor's check for a string or nothing. */
  function OptionalField(fields: map<string, Json>, key: string): Option<Option<string>> {
    if key !in fields || fields[key].Null? then Some(None)
    else if fields[key].Text? then Some(Some(fields[key].s))
    else None
  }

  function HopField(fields: map<string, Json>): Option<int> {
    if "hop_count" !in fields then Some(0)
    else if fields["hop_count"].Number? then Some(fields["hop_count"].i)
    else None
  }

  /** A missing key is a `KeyError`; a value that is no text has no `endswith`, which is not caught. */
  function ReadTimestamp(fields: map<string, Json>, key: string, iso: IsoLibrary): Reading {
    if key !in fields then Unreadable
    else if fields[key].Text? then ParseRfc3339(fields[key].s, iso)
    else Raises
  }

  function InstantField(fields: map<string, Json>, key: string, iso: IsoLibrary): Option<Instant> {
    match ReadTimestamp(fields, key, iso)
    case At(t) => Some(t)
    case _ => None
  }

  function DictToIdentity(fields: map<string, Json>): Option<Identity> {
    match (TextField(fields, "peer_id"), TextOrEmpty(fields, "name"), TextOrEmpty(fields, "profile"))
    case (Some(id), Some(name), Some(profile)) => Some(Identity(id, name, profile))
    case _ => None
  }

  function SenderField(fields: map<string, Json>): Option<Identity> {
    if "sender" in fields && fields["sender"].Object? then DictToIdentity(fields["sender"].fields) else None
  }

  function KindField(fields: map<string, Json>): Option<Kind> {
    match TextField(fields, "kind")
    case Some(text) => KindOf(text)
    case None => None
  }

  function Assemble(fields: map<string, Json>, iso: IsoLibrary): Option<Envelope> {
    var protocol := TextField(fields, "protocol");
    var messageId := TextField(fields, "message_id");
    var created := InstantField(fields, "created_at", iso);
    var expires := InstantField(fields, "expires_at", iso);
    var sender := SenderField(fields);
    var recipient := TextField(fields, "recipient_peer_id");
    var kind := KindField(fields);
    var content := TextField(fields, "content");
    var replyTo := OptionalField(fields, "reply_to");
    var conversation := OptionalField(fields, "conversation_id");
    var hops := HopField(fields);
    if protocol.Some? && messageId.Some? && created.Some? && expires.Some? && sender.Some? && recipient.Some?
       && kind.Some? && content.Some? && replyTo.Some? && conversation.Some? && hops.Some?
    then Some(Envelope(protocol.value, messageId.value, created.value, expires.value, sender.value, recipient.value,
                       kind.value, content.value, replyTo.value, conversation.value, hops.value))
    else None
  }

  /** Is everything that is read in front of the timestamps in order? */
  predicate ReachesTimestamps(fields: map<string, Json>) {
    && SenderField(fields).Some? && IsUuid(SenderField(fields).value.peerId)
    && "protocol" in fields && "message_id" in fields
  }

  /** The timestamps are read in order, the second only after the first was. */
  predicate TimestampsRaise(fields: map<string, Json>, iso: IsoLibrary) {
    var created := ReadTimestamp(fields, "created_at", iso);
    created.Raises? || (created.At? && ReadTimestamp(fields, "expires_at", iso).Raises?)
  }

  function DictToEnvelope(data: Json, now: Instant, iso: IsoLibrary): (r: Result<Envelope, DecodeFault>)
    ensures r.Ok? ==> ValidEnvelope(r.value) && Before(now, r.value.expiresAt)
    ensures r == Err(Uncaught) <==> data.Object? && ReachesTimestamps(data.fields) && TimestampsRaise(data.fields, iso)
  {
    if !data.Object? then Err(Malformed)
    else if ReachesTimestamps(data.fields) && TimestampsRaise(data.fields, iso) then Err(Uncaught)
    else
      match Assemble(data.fields, iso)
      case None => Err(Malformed)
      case Some(e) =>
        if !ValidEnvelope(e) then Err(Malformed)
        else if Expired(e, now) then Err(EnvelopeExpired)
        else Ok(e)
  }

  predicate HasText(fields: map<string, Json>, key: string, s: string) { key in fields && fields[key] == Text(s) }

  /** A member that may be missing or null. */
  ghost predicate HasOptional(fields: map<string, Json>, key: string, o: Option<string>) {
    if key in fields && fields[key] != Null then o.Some? && fields[key] == Text(o.value) else o == None
  }

  ghost predicate HasTextOrNothing(fields: map<string, Json>, key: string, s: string) {
    if key in fields then fields[key] == Text(s) else s == ""
  }

  ghost predicate NamesKind(s: string, k: Kind) {
    && (s == "ping" <==> k == Ping) && (s == "pong" <==> k == Pong) && (s == "message" <==> k == Message)
    && (s == "receipt" <==> k == Receipt) && (s == "discover" <==> k == Discover) && (s == "alive" <==> k == Alive)
  }

  ghost predicate SaysSender(fields: map<string, Json>, sender: Identity) {
    && HasText(fields, "peer_id", sender.peerId)
    && HasTextOrNothing(fields, "name", sender.name) && HasTextOrNothing(fields, "profile", sender.profile)
  }

  /** Which member of a document says what about the envelope. */
  ghost predicate Says(fields: map<string, Json>, e: Envelope, iso: IsoLibrary) {
    && HasText(fields, "protocol", e.protocol) && e.protocol in {"agent-peer/1", "agent-peer/2"}
    && HasText(fields, "message_id", e.messageId)
    && "created_at" in fields && fields["created_at"].Text? && ParseRfc3339(fields["created_at"].s, iso) == At(e.createdAt)
    && "expires_at" in fields && fields["expires_at"].Text? && ParseRfc3339(fields["expires_at"].s, iso) == At(e.expiresAt)
    && "sender" in fields && fields["sender"].Object? && SaysSender(fields["sender"].fields, e.sender)
    && HasText(fields, "recipient_peer_id", e.recipientPeerId)
    && "kind" in fields && fields["kind"].Text? && NamesKind(fields["kind"].s, e.kind)
    && HasText(fields, "content", e.content)
    && HasOptional(fields, "reply_to", e.replyTo) && HasOptional(fields, "conversation_id", e.conversationId)
    && (if "hop_count" in fields then fields["hop_count"] == Number(e.hopCount) else e.hopCount == 0)
  }

  /** The limits of the fields, in numbers. */
  lemma ValidFieldsMean(e: Envelope)
    ensures HasValidFields(e) <==>
            && (e.protocol == "agent-peer/1" || e.protocol == "agent-peer/2")
            && IsUuid(e.messageId) && IsUuid(e.sender.peerId) && IsUuid(e.recipientPeerId)
            && (e.replyTo == None || IsUuid(e.replyTo.value))
            && ValidInstant(e.createdAt) && ValidInstant(e.expiresAt)
            && Utf8Length(e.content) <= 32_768 && e.hopCount in {0, 1, 2, 3, 4}
  {
  }

  /** The timestamps are read exactly of a document with a sender whose id is one, a protocol and a message id. */
  lemma ReachedIff(fields: map<string, Json>)
    ensures ReachesTimestamps(fields) <==>
            && "sender" in fields && fields["sender"].Object?
            && (exists sender :: SaysSender(fields["sender"].fields, sender) && IsUuid(sender.peerId))
            && "protocol" in fields && "message_id" in fields
  {
    if "sender" in fields && fields["sender"].Object? {
      var inner := fields["sender"].fields;
      if SenderField(fields).Some? {
        assert SaysSender(inner, SenderField(fields).value);
      }
      if sender :| SaysSender(inner, sender) && IsUuid(sender.peerId) {
        assert DictToIdentity(inner) == Some(sender);
      }
    }
  }

  lemma KindsAreNamed(s: string)
    ensures KindOf(s).Some? ==> NamesKind(s, KindOf(s).value)
  {
  }

  /** What is decoded is what the document says. */
  lemma DecodedIsSaid(data: Json, now: Instant, iso: IsoLibrary)
    requires DictToEnvelope(data, now, iso).Ok?
    ensures data.Object? && Says(data.fields, DictToEnvelope(data, now, iso).value, iso)
  {
    KindsAreNamed(data.fields["kind"].s);
  }

  /** What is encoded says what the envelope is. */
  lemma EncodedSays(e: Envelope, iso: IsoLibrary)
    requires Encodable(e)
    ensures EnvelopeToDict(e).Object? && Says(EnvelopeToDict(e).fields, e, iso)
  {
    EnvelopeRoundTrip(e, e.createdAt, iso);
    DecodedIsSaid(EnvelopeToDict(e), e.createdAt, iso);
  }

  /** `fields` holds exactly what `EnvelopeToDict` writes for `e`, read key by key. */
  ghost predicate Carries(fields: map<string, Json>, e: Envelope)
    requires Encodable(e)
  {
    && TextField(fields, "protocol") == Some(e.protocol)
    && TextField(fields, "message_id") == Some(e.messageId)
    && TextField(fields, "created_at") == Some(Rfc3339(e.createdAt))
    && TextField(fields, "expires_at") == Some(Rfc3339(e.expiresAt))
    && SenderField(fields) == Some(e.sender)
    && TextField(fields, "recipient_peer_id") == Some(e.recipientPeerId)
    && TextField(fields, "kind") == Some(KindText(e.kind))
    && TextField(fields, "content") == Some(e.content)
    && OptionalField(fields, "reply_to") == Some(e.replyTo)
    && OptionalField(fields, "conversation_id") == Some(e.conversationId)
    && HopField(fields) == Some(e.hopCount)
  }

  lemma DictCarriesIdentifiers(e: Envelope)
    requires Encodable(e)
    ensures var fields := EnvelopeToDict(e).fields;
            && TextField(fields, "protocol") == Some(e.protocol)
            && TextField(fields, "message_id") == Some(e.messageId)
            && TextField(fields, "created_at") == Some(Rfc3339(e.createdAt))
            && TextField(fields, "expires_at") == Some(Rfc3339(e.expiresAt))
  {
  }

  lemma DictCarriesParties(e: Envelope)
    requires Encodable(e)
    ensures var fields := EnvelopeToDict(e).fields;
            && SenderField(fields) == Some(e.sender)
            && TextField(fields, "recipient_peer_id") == Some(e.recipientPeerId)
  {
  }

  lemma DictCarriesContent(e: Envelope)
    requires Encodable(e)
    ensures var fields := EnvelopeToDict(e).fields;
            && TextField(fields, "kind") == Some(KindText(e.kind))
            && TextField(fields, "content") == Some(e.content)
            && HopField(fields) == Some(e.hopCount)
  {
  }

  lemma DictCarriesReferences(e: Envelope)
    requires Encodable(e)
    ensures var fields := EnvelopeToDict(e).fields;
            && OptionalField(fields, "reply_to") == Some(e.replyTo)
            && OptionalField(fields, "conversation_id") == Some(e.conversationId)
  {
  }

  lemma CarriedIsAssembled(fields: map<string, Json>, e: Envelope, iso: IsoLibrary)
    requires Encodable(e) && Carries(fields, e)
    ensures Assemble(fields, iso) == Some(e) && !TimestampsRaise(fields, iso)
  {
    CarriedInstant(fields, "created_at", e.createdAt, iso);
    CarriedInstant(fields, "expires_at", e.expiresAt, iso);
    assert KindField(fields) == Some(e.kind);
  }

  lemma CarriedInstant(fields: map<string, Json>, key: string, t: Instant, iso: IsoLibrary)
    requires ValidInstant(t) && FourDigitYear(t) && TextField(fields, key) == Some(Rfc3339(t))
    ensures ReadTimestamp(fields, key, iso) == At(t)
  {
    TimestampRoundTrip(t, iso);
  }

  /** Encoding then decoding is the identity exactly on the envelopes still unexpired. */
  lemma EnvelopeRoundTrip(e: Envelope, now: Instant, iso: IsoLibrary)
    requires Encodable(e)
    ensures DictToEnvelope(EnvelopeToDict(e), now, iso) ==
            if Before(now, e.expiresAt) then Ok(e) else Err(EnvelopeExpired)
  {
    DictCarriesIdentifiers(e);
    DictCarriesParties(e);
    DictCarriesContent(e);
    DictCarriesReferences(e);
    CarriedIsAssembled(EnvelopeToDict(e).fields, e, iso);
  }

  /** Two envelopes with one wire form are the same envelope. */
  lemma WireFormIsInjective(a: Envelope, b: Envelope)
    requires Encodable(a) && Encodable(b)
    requires EnvelopeToDict(a) == EnvelopeToDict(b)
    ensures a == b
  {
    EnvelopeRoundTrip(a, a.createdAt, _ => Unreadable);
    EnvelopeRoundTrip(b, a.createdAt, _ => Unreadable);
  }

  /** Whatever document was accepted, its envelope re-encodes to one that decodes to it again. */
  lemma AcceptedEnvelopesAreStable(data: Json, now: Instant, iso: IsoLibrary)
    requires DictToEnvelope(data, now, iso).Ok? && Encodable(DictToEnvelope(data, now, iso).value)
    ensures DictToEnvelope(EnvelopeToDict(DictToEnvelope(data, now, iso).value), now, iso) == DictToEnvelope(data, now, iso)
  {
    EnvelopeRoundTrip(DictToEnvelope(data, now, iso).value, now, iso);
  }

  /** The document of a valid envelope, one of whose timestamps is replaced by a number or null, is not
      rejected as malformed: the exception is one that no caller expects. */
  lemma NonTextTimestampIsUncaught(e: Envelope, key: string, junk: Json, now: Instant, iso: IsoLibrary)
    requires Encodable(e) && key in {"created_at", "expires_at"} && !junk.Text?
    ensures DictToEnvelope(Object(EnvelopeToDict(e).fields[key := junk]), now, iso) == Err(Uncaught)
  {
    SpoiltReachesTimestamps(e, key, junk);
    SpoiltRaises(e, key, junk, iso);
  }

  lemma SpoiltReachesTimestamps(e: Envelope, key: string, junk: Json)
    requires Encodable(e) && key in {"created_at", "expires_at"}
    ensures ReachesTimestamps(EnvelopeToDict(e).fields[key := junk])
  {
    DictCarriesIdentifiers(e);
    DictCarriesParties(e);
    var fields := EnvelopeToDict(e).fields;
    assert SenderField(fields[key := junk]) == SenderField(fields);
  }

  lemma SpoiltRaises(e: Envelope, key: string, junk: Json, iso: IsoLibrary)
    requires Encodable(e) && key in {"created_at", "expires_at"} && !junk.Text?
    ensures TimestampsRaise(EnvelopeToDict(e).fields[key := junk], iso)
  {
    DictCarriesIdentifiers(e);
    if key == "expires_at" {
      CarriedInstant(EnvelopeToDict(e).fields[key := junk], "created_at", e.createdAt, iso);
    }
  }
}
