/** The answer to a liveness challenge: the identity text that a supervisor puts into the content of
    its reply, and the ceiling that decides whether there is a reply. */
module Challenges {
  import opened Models
  import opened JsonTexts
  import opened Registries
  import EnvelopeCodec

  const IDENTITY_KEYS: seq<string> :=
    ["agent_id", "capabilities", "instance_id", "nonce", "peer_id", "protocol", "protocols", "session_id", "status"]

  function IdentityValues(r: PeerRecord, nonce: string): seq<Value> {
    [OfText(r.agent), Verbatim(r.capabilities.text), OfText(r.instance), OfText(nonce), OfText(r.peer),
     OfText(r.protocol), OfList(r.protocols), OfText(r.session), OfText(StatusText(r.status))]
  }

  /** The identity of `r` with the nonce of the challenge. */
  function IdentityText(r: PeerRecord, nonce: string): string {
    ObjectText(IDENTITY_KEYS, IdentityValues(r, nonce))
  }

  /** The reply can be built: its content is within the ceiling of an envelope.  Building it is not
      guarded, so beyond the ceiling the exception leaves the supervisor's loop. */
  predicate Buildable(r: PeerRecord, nonce: string) {
    EnvelopeCodec.Utf8Length(IdentityText(r, nonce)) <= EnvelopeCodec.MAX_CONTENT_BYTES
  }

  lemma {:induction false} Utf8IsNoShorter(s: string)
    ensures EnvelopeCodec.Utf8Length(s) >= |s|
  {
    if s != "" {
      Utf8IsNoShorter(s[1..]);
    }
  }

  lemma IdentityIsLonger(r: PeerRecord, nonce: string, i: nat)
    requires i < 9
    ensures EnvelopeCodec.Utf8Length(IdentityText(r, nonce)) > Length(IdentityValues(r, nonce)[i])
  {
    Utf8IsNoShorter(IdentityText(r, nonce));
    SizeOfObject(IDENTITY_KEYS, IdentityValues(r, nonce));
    ValueIsNoLonger(IdentityValues(r, nonce), i);
  }

  /** No reply can be built to a challenge whose nonce alone reaches the ceiling, nor for a record whose
      capabilities do. */
  lemma OversizeIsNotBuildable(r: PeerRecord, nonce: string)
    requires |nonce| >= EnvelopeCodec.MAX_CONTENT_BYTES || |r.capabilities.text| >= EnvelopeCodec.MAX_CONTENT_BYTES
    ensures !Buildable(r, nonce)
  {
    IdentityIsLonger(r, nonce, 3);
    IdentityIsLonger(r, nonce, 1);
  }
}
