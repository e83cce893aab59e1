/** Discovery over the shared registry: the liveness challenge, fail-closed agent resolution, and
    the fenced repair of stale records. */
module Discovery {
  import opened Models
  import opened Registries
  import opened Supervisors
  import opened Challenges
  import Connections
  import Framing
  import Sessions

  // ---------------------------------------------------------------------------
  // The challenge
  // ---------------------------------------------------------------------------

  /** A JSON value of an identity: text, a list of texts, or anything else. */
  datatype Value = Str(s: string) | List(items: seq<string>) | Other

  /** What a request brings back: nothing usable, or an envelope whose content may be an object. */
  datatype Reply = Silence | Reply(kind: Kind, conversation: Option<string>, sender: string, content: Option<map<string, Value>>)

  /** Text is read character by character where a list is expected. */
  function AsList(v: Option<Value>): Option<seq<string>> {
    match v
    case None => Some([])
    case Some(List(items)) => Some(items)
    case Some(Str(s)) => Some(seq(|s|, i requires 0 <= i < |s| => [s[i]]))
    case Some(Other) => None
  }

  function Field(m: map<string, Value>, key: string): Option<Value> { if key in m then Some(m[key]) else None }

  /** The checks on a reply, in order. */
  function ProbeOnce(r: PeerRecord, nonce: string, reply: Reply): Option<map<string, Value>> {
    if r.socketPath == "" then None
    else if reply.Silence? then None
    else if reply.kind != Alive then None
    else if reply.conversation != Some(nonce) || reply.sender != r.peer then None
    else if reply.content.None? then None
    else
      var identity := reply.content.value;
      if Field(identity, "nonce") != Some(Str(nonce)) then None
      else if Field(identity, "peer_id") != Some(Str(r.peer)) then None
      else if Field(identity, "instance_id") != Some(Str(r.instance)) then None
      else if Field(identity, "session_id") != Some(Str(r.session)) then None
      else if Field(identity, "agent_id") != Some(Str(r.agent)) then None
      else if AsList(Field(identity, "protocols")) != Some(r.protocols) then None
      else if Field(identity, "protocol") != Some(Str(r.protocol)) then None
      else if Field(identity, "status") != Some(Str(StatusText(r.status))) then None
      else Some(identity)
  }

  function IdentityOf(r: PeerRecord, nonce: string): map<string, Value> {
    map["nonce" := Str(nonce), "peer_id" := Str(r.peer), "instance_id" := Str(r.instance), "session_id" := Str(r.session),
        "agent_id" := Str(r.agent), "protocols" := List(r.protocols), "capabilities" := Other,
        "protocol" := Str(r.protocol), "status" := Str(StatusText(r.status))]
  }

  /** What the requester receives of a supervisor's answer: none if building it raised or its frame is
      over the ceiling. */
  function Received(answer: Option<Connections.Reply>, wire: Connections.Wire): Reply {
    match answer
    case None => Silence
    case Some(reply) =>
      if |wire(reply)| > Framing.MAX_FRAME_BYTES then Silence
      else match reply
        case AliveReply(record, nonce) => Reply(Alive, Some(nonce), record.peer, Some(IdentityOf(record, nonce)))
        case ReceiptReply(_) => Reply(Receipt, None, NOBODY, None)
        case PongReply => Reply(Pong, None, NOBODY, None)
  }

  const NOBODY := "00000000-0000-0000-0000-000000000000"

  predicate IsChallenge(q: Connections.Request, peer: string, nonce: string) {
    q.kind == Discover && q.recipientPeerId == peer && q.conversationId == Some(nonce)
  }

  /** The identity fits the content of an envelope, and the envelope fits a frame. */
  predicate Deliverable(r: PeerRecord, nonce: string, wire: Connections.Wire) {
    Buildable(r, nonce) && |wire(Connections.AliveReply(r, nonce))| <= Framing.MAX_FRAME_BYTES
  }

  /** The fields the challenge compares. */
  predicate SameProbed(a: PeerRecord, b: PeerRecord) {
    && a.peer == b.peer && a.instance == b.instance && a.session == b.session && a.agent == b.agent
    && a.protocols == b.protocols && a.protocol == b.protocol && a.status == b.status
  }

  lemma StatusTextsDiffer(p: Presence, q: Presence)
    ensures StatusText(p) == StatusText(q) <==> p == q
  {
    assert StatusText(p)[0] == StatusText(q)[0] <==> p == q;
  }

  lemma FieldsOfIdentity(r: PeerRecord, nonce: string)
    ensures var m := IdentityOf(r, nonce);
            && Field(m, "nonce") == Some(Str(nonce)) && Field(m, "peer_id") == Some(Str(r.peer))
            && Field(m, "instance_id") == Some(Str(r.instance)) && Field(m, "session_id") == Some(Str(r.session))
            && Field(m, "agent_id") == Some(Str(r.agent)) && Field(m, "protocols") == Some(List(r.protocols))
            && Field(m, "protocol") == Some(Str(r.protocol)) && Field(m, "status") == Some(Str(StatusText(r.status)))
  {
  }

  /** The identity that is received has the members of the text that was sent. */
  lemma IdentityHasItsKeys(r: PeerRecord, nonce: string)
    ensures forall key :: key in IdentityOf(r, nonce) <==> key in IDENTITY_KEYS
  {
  }

  /** An identity passes for the record exactly if the compared fields are equal. */
  lemma IdentityPassesIff(r: PeerRecord, b: PeerRecord, nonce: string)
    ensures ProbeOnce(r, nonce, Reply(Alive, Some(nonce), b.peer, Some(IdentityOf(b, nonce)))).Some? <==>
            r.socketPath != "" && SameProbed(r, b)
  {
    FieldsOfIdentity(b, nonce);
    StatusTextsDiffer(r.status, b.status);
  }

  lemma AnsweredChallenge(q: Connections.Request, nonce: string, l: Connections.Local)
    requires IsChallenge(q, q.recipientPeerId, nonce) && q.recipientPeerId in l.peers
    ensures Connections.Answer(q, l) ==
            if Buildable(l.peers[q.recipientPeerId], nonce) then Some(Connections.AliveReply(l.peers[q.recipientPeerId], nonce)) else None
  {
  }

  lemma ReceivedOfChallenge(q: Connections.Request, peer: string, nonce: string, l: Connections.Local, wire: Connections.Wire)
    requires IsChallenge(q, peer, nonce) && peer in l.peers
    ensures Received(Connections.Answer(q, l), wire) ==
            if Deliverable(l.peers[peer], nonce, wire)
            then Reply(Alive, Some(nonce), l.peers[peer].peer, Some(IdentityOf(l.peers[peer], nonce)))
            else Silence
  {
    AnsweredChallenge(q, nonce, l);
  }

  /** Against a supervisor the challenge succeeds exactly when it holds a record of that peer that is
      equal on peer, instance, session, agent, protocols, protocol and status, and whose identity is
      within the ceilings. */
  lemma ProbeSucceedsIff(r: PeerRecord, nonce: string, q: Connections.Request, l: Connections.Local, wire: Connections.Wire)
    requires IsChallenge(q, r.peer, nonce) && forall id <- l.peers :: l.peers[id].peer == id
    ensures ProbeOnce(r, nonce, Received(Connections.Answer(q, l), wire)).Some? <==>
            && r.socketPath != "" && r.peer in l.peers
            && SameProbed(r, l.peers[r.peer]) && Deliverable(l.peers[r.peer], nonce, wire)
  {
    if r.peer in l.peers {
      ReceivedOfChallenge(q, r.peer, nonce, l, wire);
      IdentityPassesIff(r, l.peers[r.peer], nonce);
    }
  }

  /** Whoever answers, success means that the reply carried the nonce and the recorded identity. */
  lemma ProbeIsSound(r: PeerRecord, nonce: string, reply: Reply)
    requires ProbeOnce(r, nonce, reply).Some?
    ensures var identity := ProbeOnce(r, nonce, reply).value;
            && reply == Reply(Alive, Some(nonce), r.peer, Some(identity))
            && Field(identity, "nonce") == Some(Str(nonce)) && Field(identity, "instance_id") == Some(Str(r.instance))
            && Field(identity, "session_id") == Some(Str(r.session)) && Field(identity, "agent_id") == Some(Str(r.agent))
            && Field(identity, "status") == Some(Str(StatusText(r.status)))
  {
  }

  /** A reply to another challenge's nonce never passes. */
  lemma ReplayFails(r: PeerRecord, nonce: string, other: string, q: Connections.Request, l: Connections.Local, wire: Connections.Wire)
    requires IsChallenge(q, r.peer, other) && other != nonce
    ensures ProbeOnce(r, nonce, Received(Connections.Answer(q, l), wire)).None?
  {
  }

  /** What a probe by peer id comes to: the record file is read, and the challenge is sent to its address. */
  function ProbedByFile(files: Files, peer: string, nonce: string, q: Connections.Request, l: Connections.Local, wire: Connections.Wire)
    : Option<map<string, Value>>
  {
    match Get(files, peer)
    case None => None
    case Some(r) => ProbeOnce(r, nonce, Received(Connections.Answer(q, l), wire))
  }

  /** With `w` the record last written to its file, an open session is found alive exactly if the file of
      that record can be read and the identity is within the ceilings of a reply. */
  lemma OpenSessionsAnswer(sessions: Records, m: Maps, files: Files, s: string, w: PeerRecord, nonce: string,
          q: Connections.Request, l: Connections.Local, wire: Connections.Wire)
    requires Sessions.Linked(sessions, m.peers, files) && Coherent(m) && s in sessions && sessions[s].socketPath != ""
    requires Get(files, sessions[s].peer) == if Readable(w) then Some(w) else None
    requires IsChallenge(q, sessions[s].peer, nonce) && l.peers == m.peers
    ensures sessions[s].peer in m.peers
    ensures ProbedByFile(files, sessions[s].peer, nonce, q, l, wire).Some? <==>
            Readable(w) && Deliverable(m.peers[sessions[s].peer], nonce, wire)
  {
    assert Sessions.LinkedAt(sessions, m.peers, files, s);
    assert forall id <- m.peers :: m.peers[id].peer == id;
    if Readable(w) {
      ProbeSucceedsIff(w, nonce, q, l, wire);
    }
  }

  /** An open session whose capabilities take 32 KiB is listed, as long as its file can be read, and never
      found alive. */
  lemma LargeCapabilitiesAreSilent(sessions: Records, m: Maps, files: Files, s: string, nonce: string, q: Connections.Request,
          l: Connections.Local, wire: Connections.Wire)
    requires Sessions.Linked(sessions, m.peers, files) && s in sessions && Sessions.Listed(sessions, files, s)
    requires |sessions[s].capabilities.text| >= 32 * 1024
    requires IsChallenge(q, sessions[s].peer, nonce) && l.peers == m.peers
    ensures Get(files, sessions[s].peer).Some? && ProbedByFile(files, sessions[s].peer, nonce, q, l, wire).None?
  {
    assert Sessions.LinkedAt(sessions, m.peers, files, s);
    OversizeIsNotBuildable(m.peers[sessions[s].peer], nonce);
  }

  // ---------------------------------------------------------------------------
  // Resolving an agent
  // ---------------------------------------------------------------------------

  datatype Fault = EmptyAgent | NoLiveSession | AmbiguousPeer

  function Filter(s: seq<PeerRecord>, p: PeerRecord -> bool): seq<PeerRecord> {
    if s == [] then [] else (if p(s[0]) then [s[0]] else []) + Filter(s[1..], p)
  }

  /** A session of the agent, not excluded, that answers. */
  function IsLive(agent: string, requesting: string, alive: PeerRecord -> bool): PeerRecord -> bool {
    (r: PeerRecord) => r.agent == agent && !(requesting != "" && r.peer == requesting) && alive(r)
  }

  /** An empty requester excludes nobody. */
  lemma LiveMeans(agent: string, requesting: string, alive: PeerRecord -> bool, r: PeerRecord)
    ensures IsLive(agent, requesting, alive)(r) <==> r.agent == agent && (requesting == "" || r.peer != requesting) && alive(r)
  {
  }

  function HasId(peer: string): PeerRecord -> bool { (r: PeerRecord) => r.peer == peer }

  function IsPrimary(): PeerRecord -> bool { (r: PeerRecord) => r.capabilities.primary }

  function Both(p: PeerRecord -> bool, q: PeerRecord -> bool): PeerRecord -> bool { (r: PeerRecord) => p(r) && q(r) }

  /** `listing` is the registry listing; an empty pin or requester stands for none. */
  function ResolveAgent(agent: string, pinned: string, requesting: string, listing: seq<PeerRecord>,
          alive: PeerRecord -> bool)
    : (r: Result<PeerRecord, Fault>)
    ensures r == Err(EmptyAgent) <==> agent == ""
    ensures r.Ok? ==> && r.value in listing && r.value.agent == agent && alive(r.value)
                      && (requesting != "" ==> r.value.peer != requesting) && (pinned != "" ==> r.value.peer == pinned)
  {
    if agent == "" then Err(EmptyAgent)
    else
      var live := Filter(listing, IsLive(agent, requesting, alive));
      FilterMembers(listing, IsLive(agent, requesting, alive));
      if live == [] then Err(NoLiveSession)
      else if pinned != "" then
        var those := Filter(live, HasId(pinned));
        FilterMembers(live, HasId(pinned));
        if |those| == 1 then Ok(those[0]) else Err(AmbiguousPeer)
      else
        var primaries := Filter(live, IsPrimary());
        FilterMembers(live, IsPrimary());
        if |primaries| == 1 then Ok(primaries[0])
        else if |live| == 1 then Ok(live[0])
        else Err(AmbiguousPeer)
  }

  lemma {:induction false} FilterMembers(s: seq<PeerRecord>, p: PeerRecord -> bool)
    ensures forall x :: x in Filter(s, p) <==> x in s && p(x)
  {
    if s != [] {
      FilterMembers(s[1..], p);
      assert s == [s[0]] + s[1..];
    }
  }

  lemma {:induction false} FilterCounts(s: seq<PeerRecord>, p: PeerRecord -> bool, x: PeerRecord)
    ensures multiset(Filter(s, p))[x] == if p(x) then multiset(s)[x] else 0
  {
    if s != [] {
      FilterCounts(s[1..], p, x);
      assert s == [s[0]] + s[1..];
    }
  }

  lemma FilterPermutes(s: seq<PeerRecord>, t: seq<PeerRecord>, p: PeerRecord -> bool)
    requires multiset(s) == multiset(t)
    ensures multiset(Filter(s, p)) == multiset(Filter(t, p))
  {
    var a, b := multiset(Filter(s, p)), multiset(Filter(t, p));
    forall x: PeerRecord ensures a[x] == b[x] {
      FilterCounts(s, p, x);
      FilterCounts(t, p, x);
    }
  }

  lemma SameSingle(s: seq<PeerRecord>, t: seq<PeerRecord>)
    requires multiset(s) == multiset(t)
    ensures |s| == |t| && (|s| == 1 ==> s[0] == t[0])
  {
    assert |multiset(s)| == |s| && |multiset(t)| == |t|;
    if |s| == 1 {
      assert s[0] in multiset(s) && t == [t[0]];
      assert multiset(t)[s[0]] == 1;
    }
  }

  /** The outcome does not depend on the order of the listing. */
  lemma ResolutionIsOrderFree(agent: string, pinned: string, requesting: string, listing: seq<PeerRecord>,
          other: seq<PeerRecord>,
                              alive: PeerRecord -> bool)
    requires multiset(listing) == multiset(other)
    ensures ResolveAgent(agent, pinned, requesting, listing, alive) == ResolveAgent(agent, pinned, requesting, other, alive)
  {
    var p := IsLive(agent, requesting, alive);
    var a, b := Filter(listing, p), Filter(other, p);
    FilterPermutes(listing, other, p);
    SameSingle(a, b);
    var pin, prime := HasId(pinned), IsPrimary();
    FilterPermutes(a, b, pin);
    SameSingle(Filter(a, pin), Filter(b, pin));
    FilterPermutes(a, b, prime);
    SameSingle(Filter(a, prime), Filter(b, prime));
  }

  /** Exactly one place in the listing satisfies `p`. */
  ghost predicate ExactlyOne(s: seq<PeerRecord>, p: PeerRecord -> bool) {
    exists i :: 0 <= i < |s| && OnlyAt(s, p, i)
  }

  ghost predicate OnlyAt(s: seq<PeerRecord>, p: PeerRecord -> bool, i: nat)
    requires i < |s|
  {
    p(s[i]) && forall j :: 0 <= j < |s| && p(s[j]) ==> j == i
  }

  lemma {:induction false} OneIffExactlyOne(s: seq<PeerRecord>, p: PeerRecord -> bool)
    ensures |Filter(s, p)| == 1 <==> ExactlyOne(s, p)
    ensures Filter(s, p) == [] <==> forall i :: 0 <= i < |s| ==> !p(s[i])
  {
    if s != [] {
      var rest := s[1..];
      OneIffExactlyOne(rest, p);
      assert forall i :: 0 <= i < |rest| ==> rest[i] == s[i + 1];
      assert forall i :: 1 <= i < |s| ==> s[i] == rest[i - 1];
      if ExactlyOne(rest, p) && !p(s[0]) {
        var i :| 0 <= i < |rest| && OnlyAt(rest, p, i);
        assert OnlyAt(s, p, i + 1);
      }
      if p(s[0]) && (forall i :: 0 <= i < |rest| ==> !p(rest[i])) {
        assert OnlyAt(s, p, 0);
      }
      if ExactlyOne(s, p) {
        var i :| 0 <= i < |s| && OnlyAt(s, p, i);
        if i > 0 {
          assert OnlyAt(rest, p, i - 1);
        }
      }
    }
  }

  lemma FilterCons(x: PeerRecord, rest: seq<PeerRecord>, p: PeerRecord -> bool)
    ensures Filter([x] + rest, p) == if p(x) then [x] + Filter(rest, p) else Filter(rest, p)
  {
    assert ([x] + rest)[1..] == rest;
  }

  lemma {:induction false} FilterTwice(s: seq<PeerRecord>, p: PeerRecord -> bool, q: PeerRecord -> bool)
    ensures Filter(Filter(s, p), q) == Filter(s, Both(p, q))
  {
    if s != [] {
      FilterTwice(s[1..], p, q);
      assert s == [s[0]] + s[1..];
      FilterCons(s[0], s[1..], p);
      FilterCons(s[0], s[1..], Both(p, q));
      FilterCons(s[0], Filter(s[1..], p), q);
    }
  }

  /** The candidates: sessions of the agent that answer, without the requester. */
  ghost predicate CandidateAt(listing: seq<PeerRecord>, i: nat, agent: string, requesting: string, alive: PeerRecord -> bool)
    requires i < |listing|
  {
    listing[i].agent == agent && (requesting == "" || listing[i].peer != requesting) && alive(listing[i])
  }

  /** Among which candidates there must be one. */
  datatype Among = ById(peer: string) | Primary | All

  ghost predicate Counts(among: Among, r: PeerRecord) {
    match among
    case ById(peer) => r.peer == peer
    case Primary => r.capabilities.primary
    case All => true
  }

  ghost predicate OnlyCandidate(listing: seq<PeerRecord>, i: nat, agent: string, requesting: string, alive: PeerRecord -> bool,
          among: Among)
    requires i < |listing|
  {
    && CandidateAt(listing, i, agent, requesting, alive) && Counts(among, listing[i])
    && forall j: nat :: j < |listing| && j != i ==> !(CandidateAt(listing, j, agent, requesting, alive) && Counts(among, listing[j]))
  }

  ghost predicate Chooses(listing: seq<PeerRecord>, agent: string, requesting: string, alive: PeerRecord -> bool,
          among: Among, r: Result<PeerRecord, Fault>) {
    forall i: nat :: (i < |listing| && OnlyCandidate(listing, i, agent, requesting, alive, among)) ==> r == Ok(listing[i])
  }

  /** In the words of candidates: the one candidate with the pinned id; without a pin the one primary
      candidate, or else the only candidate there is; and nothing live is told from too much. */
  lemma ResolutionIsTheOnlyCandidate(agent: string, pinned: string, requesting: string, listing: seq<PeerRecord>,
          alive: PeerRecord -> bool)
    requires agent != ""
    ensures var r := ResolveAgent(agent, pinned, requesting, listing, alive);
            && (pinned != "" ==> Chooses(listing, agent, requesting, alive, ById(pinned), r))
            && (pinned == "" ==> Chooses(listing, agent, requesting, alive, Primary, r))
            && (pinned == "" ==> Chooses(listing, agent, requesting, alive, All, r))
            && (r == Err(NoLiveSession) <==> forall i: nat :: i < |listing| ==> !CandidateAt(listing, i, agent, requesting, alive))
  {
    var p := IsLive(agent, requesting, alive);
    ResolutionSucceedsIff(agent, pinned, requesting, listing, alive);
    forall i: nat | i < |listing| ensures p(listing[i]) <==> CandidateAt(listing, i, agent, requesting, alive) {
      LiveMeans(agent, requesting, alive, listing[i]);
    }
    if pinned != "" {
      OnlyOneIsChosen(agent, pinned, requesting, listing, alive, ById(pinned), Both(p, HasId(pinned)));
    } else {
      OnlyOneIsChosen(agent, pinned, requesting, listing, alive, Primary, Both(p, IsPrimary()));
      OnlyOneIsChosen(agent, pinned, requesting, listing, alive, All, p);
    }
  }

  lemma OnlyOneIsChosen(agent: string, pinned: string, requesting: string, listing: seq<PeerRecord>, alive: PeerRecord -> bool,
          among: Among, q: PeerRecord -> bool)
    requires forall i: nat :: i < |listing| ==>
               (q(listing[i]) <==> CandidateAt(listing, i, agent, requesting, alive) && Counts(among, listing[i]))
    requires var r := ResolveAgent(agent, pinned, requesting, listing, alive);
             ExactlyOne(listing, q) ==> r.Ok? && r.value in listing && q(r.value)
    ensures Chooses(listing, agent, requesting, alive, among, ResolveAgent(agent, pinned, requesting, listing, alive))
  {
    var r := ResolveAgent(agent, pinned, requesting, listing, alive);
    forall i: nat | i < |listing| && OnlyCandidate(listing, i, agent, requesting, alive, among) ensures r == Ok(listing[i]) {
      assert OnlyAt(listing, q, i);
      assert ExactlyOne(listing, q);
      var j: nat :| j < |listing| && listing[j] == r.value;
      assert q(listing[j]);
    }
  }

  /** A resolution succeeds exactly when the pin names one live session or, without a pin, when there
      is one live primary session or one live session; nothing live is told apart from too many. */
  lemma ResolutionSucceedsIff(agent: string, pinned: string, requesting: string, listing: seq<PeerRecord>,
          alive: PeerRecord -> bool)
    ensures var r, p := ResolveAgent(agent, pinned, requesting, listing, alive), IsLive(agent, requesting, alive);
            && (r.Ok? <==> agent != "" && (if pinned != "" then ExactlyOne(listing, Both(p, HasId(pinned)))
                                           else ExactlyOne(listing, Both(p, IsPrimary())) || ExactlyOne(listing, p)))
            && (r == Err(NoLiveSession) <==> agent != "" && forall i :: 0 <= i < |listing| ==> !p(listing[i]))
            && (r.Ok? && pinned != "" ==> r.value.peer == pinned)
            && (r.Ok? && pinned == "" && ExactlyOne(listing, Both(p, IsPrimary())) ==> r.value.capabilities.primary)
  {
    var p := IsLive(agent, requesting, alive);
    var live := Filter(listing, p);
    OneIffExactlyOne(listing, p);
    FilterTwice(listing, p, HasId(pinned));
    OneIffExactlyOne(listing, Both(p, HasId(pinned)));
    FilterMembers(live, HasId(pinned));
    FilterTwice(listing, p, IsPrimary());
    OneIffExactlyOne(listing, Both(p, IsPrimary()));
    FilterMembers(live, IsPrimary());
  }

  // ---------------------------------------------------------------------------
  // Repair
  // ---------------------------------------------------------------------------

  /** The cache is keyed by peer id, socket path and last sighting. */
  type Key = (string, string, string)

  datatype Probed = Probed(at: real, alive: bool)

  const PROBE_CACHE_TTL := 2.0
  const PROBE_CACHE_PAGE := 256

  function KeyOf(r: PeerRecord): Key { (r.peer, r.socketPath, r.lastSeen) }

  type Cache = map<Key, Probed>

  /** An unexpired cached success. */
  predicate CachedAlive(cache: Cache, key: Key, clock: real) {
    key in cache && clock - cache[key].at < PROBE_CACHE_TTL && cache[key].alive
  }

  /** The record of a file that discovery accepts: named after its peer, with no socket or with the
      socket path of its peer and instance, whose file, if there, has the recorded owner and inode. */
  predicate Parseable(files: Files, sockets: Sockets, pathFor: (string, string) -> string, peer: string) {
    && Get(files, peer).Some?
    && var r := Get(files, peer).value;
    && r.peer == peer
    && (r.socketPath != "" ==>
          && r.socketPath == pathFor(r.peer, r.instance)
          && (r.socketPath in sockets ==> OwnsSocket(sockets, r)))
  }

  /** The environment of a repair: which listeners are open, and who of those that accept a
      connection answers a record's challenge. */
  datatype World = World(openFds: set<nat>, pathFor: (string, string) -> string, answers: PeerRecord -> bool)

  /** A challenge needs a listener at the record's address. */
  predicate Answering(w: World, sockets: Sockets, r: PeerRecord) {
    r.socketPath != "" && Bound(sockets, w.openFds, r.socketPath) && w.answers(r)
  }

  /** Nobody listens at the record's address. */
  predicate Deserted(w: World, sockets: Sockets, r: PeerRecord) {
    r.socketPath == "" || !Bound(sockets, w.openFds, r.socketPath)
  }

  /** What the documentation lets a repair delete: accepted records that fail the challenge and at whose
      address nobody listens, whatever their heartbeat. */
  function Doomed(w: World, files: Files, sockets: Sockets): set<string> {
    set peer | peer in files && Parseable(files, sockets, w.pathFor, peer)
               && !Answering(w, sockets, files[peer].record) && Deserted(w, sockets, files[peer].record)
  }

  /** Spelled out: the file can be read and is named after its peer; the record has no address, or the
      address of its peer and instance, where no descriptor is open and the file, if there is one, is the
      recorded one. */
  ghost predicate MayGo(w: World, files: Files, sockets: Sockets, peer: string) {
    && peer in files && files[peer].Parsed? && files[peer].record.peer == peer
    && var r := files[peer].record;
    && (r.socketPath != "" ==> r.socketPath == w.pathFor(r.peer, r.instance))
    && (r.socketPath != "" && r.socketPath in sockets ==>
          && sockets[r.socketPath].fd !in w.openFds
          && r.socketUid == Some(sockets[r.socketPath].uid) && r.socketInode == Some(sockets[r.socketPath].inode))
  }

  lemma DoomedMayGo(w: World, files: Files, sockets: Sockets)
    ensures forall peer :: peer in Doomed(w, files, sockets) <==> MayGo(w, files, sockets, peer)
  {
  }

  /** No doomed record has an unexpired cached success. */
  ghost predicate NoFalseLife(w: World, files: Files, sockets: Sockets, cache: Cache, clock: real) {
    forall peer <- Doomed(w, files, sockets) :: !CachedAlive(cache, KeyOf(files[peer].record), clock)
  }

  /** The socket files are a part of the earlier ones, and no bound one is missing. */
  ghost predicate OnlyDesertedGone(w: World, before: Sockets, after: Sockets) {
    && (forall path <- after :: path in before && after[path] == before[path])
    && (forall path <- before :: Bound(before, w.openFds, path) ==> path in after)
  }

  lemma BoundStays(w: World, before: Sockets, after: Sockets, r: PeerRecord)
    requires OnlyDesertedGone(w, before, after)
    ensures Bound(after, w.openFds, r.socketPath) == Bound(before, w.openFds, r.socketPath)
    ensures Answering(w, after, r) == Answering(w, before, r)
    ensures Deserted(w, after, r) ==> OnlyDesertedGone(w, before, WithoutSocket(after, r))
  {
  }

  function WithoutSocket(sockets: Sockets, r: PeerRecord): Sockets {
    if r.socketPath == "" then sockets else sockets - {r.socketPath}
  }

  // The cache

  /** An unexpired entry, whatever it says. */
  predicate Hit(cache: Cache, key: Key, at: real) {
    key in cache && at - cache[key].at < PROBE_CACHE_TTL
  }

  /** Beyond a page the expired entries go. */
  function Trimmed(cache: Cache, at: real): Cache {
    if |cache| > PROBE_CACHE_PAGE then map k | k in cache && at - cache[k].at < PROBE_CACHE_TTL :: cache[k] else cache
  }

  function CacheAfter(cache: Cache, key: Key, at: real, answer: bool): Cache {
    if Hit(cache, key, at) then cache else Trimmed(cache, at)[key := Probed(at, answer)]
  }

  /** An entry of less than two seconds answers and stays; otherwise the answer is filed under the time, and
      of the other entries only expired ones may go, when there are more than 256. */
  ghost predicate ProbedAs(before: Cache, after: Cache, key: Key, now: real, alive: bool) {
    if key in before && now - before[key].at < 2.0 then after == before && alive == before[key].alive
    else
      && key in after && after[key] == Probed(now, alive)
      && (forall k <- after :: k != key ==> k in before && after[k] == before[k])
      && (forall k <- before :: k != key ==> (k in after <==> |before| <= 256 || now - before[k].at < 2.0))
  }

  /** Every unexpired success in the later cache was one before, or is the answer of this record. */
  ghost predicate OnlyOwnAnswer(cache: Cache, clock: real, later: Cache, clock': real, r: PeerRecord, answer: bool) {
    forall k :: CachedAlive(later, k, clock') ==> CachedAlive(cache, k, clock) || (k == KeyOf(r) && answer)
  }

  /** A success that is still unexpired at some time from now on is in the later cache too. */
  ghost predicate KeepsSuccesses(cache: Cache, later: Cache, clock: real) {
    forall k, t {:trigger CachedAlive(cache, k, t)} :: t >= clock && CachedAlive(cache, k, t) ==> CachedAlive(later, k, t)
  }

  lemma CacheStep(cache: Cache, clock: real, r: PeerRecord, at: real, answer: bool, clock': real)
    requires clock <= at <= clock'
    ensures OnlyOwnAnswer(cache, clock, CacheAfter(cache, KeyOf(r), at, answer), clock', r, answer)
    ensures KeepsSuccesses(cache, CacheAfter(cache, KeyOf(r), at, answer), clock')
  {
  }

  lemma CacheSteps(a: Cache, ta: real, b: Cache, tb: real, c: Cache, tc: real, r: PeerRecord, answer: bool)
    requires ta <= tb <= tc
    requires OnlyOwnAnswer(a, ta, b, tb, r, answer) && OnlyOwnAnswer(b, tb, c, tc, r, answer)
    requires KeepsSuccesses(a, b, tb) && KeepsSuccesses(b, c, tc)
    ensures OnlyOwnAnswer(a, ta, c, tc, r, answer) && KeepsSuccesses(a, c, tc)
  {
    forall k, t | t >= tc && CachedAlive(a, k, t) ensures CachedAlive(c, k, t) {
      assert CachedAlive(b, k, t);
    }
  }

  /** What a probe of an accepted record may have put into the cache keeps doomed records unshielded. */
  lemma NoFalseLifeAfterProbe(w: World, files: Files, sockets: Sockets, cache: Cache, clock: real, later: Cache,
          clock': real, r: PeerRecord)
    requires NoFalseLife(w, files, sockets, cache, clock)
    requires r.peer in files && files[r.peer] == Parsed(r) && Named(files)
    requires OnlyOwnAnswer(cache, clock, later, clock', r, Answering(w, sockets, r))
    ensures NoFalseLife(w, files, sockets, later, clock')
  {
    forall peer <- Doomed(w, files, sockets) ensures !CachedAlive(later, KeyOf(files[peer].record), clock') {
      assert NamedAt(files, peer);
    }
  }

  /** The record is on file as it was read, nobody listens at its address, and no cached success shields
      it: nothing stands between it and the fence. */
  ghost predicate Condemned(files: Files, w: World, sockets: Sockets, cache: Cache, clock: real, r: PeerRecord) {
    Get(files, r.peer) == Some(r) && Deserted(w, sockets, r) && !CachedAlive(cache, KeyOf(r), clock)
  }

  /** A duration; time never runs backwards. */
  type Delay = d: real | d >= 0.0 witness 0.0

  class DiscoveryService {
    const registry: Registry
    /** How much time passes before each reading of the clock. */
    const delays: nat -> Delay
    var world: World
    var sockets: Sockets
    var cache: Cache
    var clock: real
    var readings: nat

    constructor (registry: Registry, world: World, sockets: Sockets, delays: nat -> Delay)
      ensures this.registry == registry && this.world == world && this.sockets == sockets && this.delays == delays
      ensures cache == map[] && clock == 0.0 && readings == 0
    {
      this.registry, this.world, this.sockets, this.delays := registry, world, sockets, delays;
      cache, clock, readings := map[], 0.0, 0;
    }

    /** Does no time pass at all? */
    ghost predicate Still() { forall n :: delays(n) == 0.0 }

    method ReadClock() returns (now: real)
      modifies this`clock, this`readings
      ensures readings == old(readings) + 1 && now == clock == old(clock) + delays(old(readings))
    {
      clock := clock + delays(readings);
      readings := readings + 1;
      now := clock;
    }

    /** Something outside closes a listener. */
    method ListenerCloses(fd: nat)
      modifies this`world
      ensures world == old(world).(openFds := old(world).openFds - {fd})
    {
      world := world.(openFds := world.openFds - {fd});
    }

    /** The answer is the cached one while that is unexpired, and the challenge's own otherwise; only
        the latter enters the cache. */
    method CachedProbe(r: PeerRecord) returns (alive: bool)
      modifies this`cache, this`clock, this`readings
      ensures clock == old(clock) + delays(old(readings)) && readings == old(readings) + 1
      ensures alive == if Hit(old(cache), KeyOf(r), clock) then old(cache)[KeyOf(r)].alive else Answering(world, sockets, r)
      ensures cache == CacheAfter(old(cache), KeyOf(r), clock, Answering(world, sockets, r))
      ensures ProbedAs(old(cache), cache, KeyOf(r), clock, alive)
      ensures !(KeyOf(r) in old(cache) && clock - old(cache)[KeyOf(r)].at < 2.0) ==>
                (alive <==> r.socketPath in sockets && r.socketPath != "" && sockets[r.socketPath].fd in world.openFds && world.answers(r))
    {
      var key := KeyOf(r);
      var now := ReadClock();
      if key in cache && now - cache[key].at < PROBE_CACHE_TTL {
        return cache[key].alive;
      }
      alive := Answering(world, sockets, r);
      if |cache| > PROBE_CACHE_PAGE {
        cache := map k | k in cache && now - cache[k].at < PROBE_CACHE_TTL :: cache[k];
      }
      cache := cache[key := Probed(now, alive)];
    }

    /** Re-read, compare, probe again, look for a listener, and only then delete.  A record goes exactly
        if it is still the one compared, the probe says it is dead, and its address is deserted. */
    method FencedRemove(r: PeerRecord) returns (removed: bool)
      requires registry.Valid()
      modifies this`sockets, this`cache, this`clock, this`readings, registry
      ensures registry.Valid() && clock >= old(clock) && (Still() ==> clock == old(clock))
      ensures OnlyOwnAnswer(old(cache), old(clock), cache, clock, r, Answering(world, old(sockets), r))
      ensures KeepsSuccesses(old(cache), cache, clock)
      ensures registry.files == if removed then old(registry.files) - {r.peer} else old(registry.files)
      ensures sockets == if removed then WithoutSocket(old(sockets), r) else old(sockets)
      ensures removed ==> Deserted(world, old(sockets), r)
      ensures removed ==> Get(old(registry.files), r.peer).Some?
                          && Get(old(registry.files), r.peer).value.instance == r.instance
                          && Get(old(registry.files), r.peer).value.socketPath == r.socketPath
      ensures CachedAlive(old(cache), KeyOf(r), clock) ==> !removed
      ensures Condemned(old(registry.files), world, old(sockets), old(cache), old(clock), r) ==> removed
    {
      var current := Get(registry.files, r.peer);
      if current.None? || current.value.instance != r.instance || current.value.socketPath != r.socketPath {
        return false;
      }
      var alive := CachedProbe(r);
      CacheStep(old(cache), old(clock), r, clock, Answering(world, sockets, r), clock);
      if alive {
        return false;
      }
      if r.socketPath != "" && Bound(sockets, world.openFds, r.socketPath) {
        return false;
      }
      removed := registry.Unregister(r.peer);
      if removed && r.socketPath != "" {
        sockets := sockets - {r.socketPath};
      }
    }

    /** One candidate: a recent heartbeat that answers is kept, everything else goes to the fence. */
    method Consider(r: PeerRecord, recent: bool) returns (removed: bool)
      requires registry.Valid()
      modifies this`sockets, this`cache, this`clock, this`readings, registry
      ensures registry.Valid() && clock >= old(clock) && (Still() ==> clock == old(clock))
      ensures OnlyOwnAnswer(old(cache), old(clock), cache, clock, r, Answering(world, old(sockets), r))
      ensures KeepsSuccesses(old(cache), cache, clock)
      ensures registry.files == if removed then old(registry.files) - {r.peer} else old(registry.files)
      ensures sockets == if removed then WithoutSocket(old(sockets), r) else old(sockets)
      ensures removed ==> Deserted(world, old(sockets), r)
      ensures CachedAlive(old(cache), KeyOf(r), clock) ==> !removed
      ensures Condemned(old(registry.files), world, old(sockets), old(cache), old(clock), r) ==> removed
    {
      ghost var answer := Answering(world, sockets, r);
      if recent {
        var alive := CachedProbe(r);
        CacheStep(old(cache), old(clock), r, clock, answer, clock);
        if alive {
          return false;
        }
      }
      ghost var cache1, clock1 := cache, clock;
      removed := FencedRemove(r);
      if recent {
        CacheSteps(old(cache), old(clock), cache1, clock1, cache, clock, r, answer);
      }
    }

    /** What the repair has come to when the candidates `rest` are still to be looked at. */
    ghost predicate UnderRepair(start: Start, snapshot: set<string>, rest: set<string>, gone: set<string>, removed: seq<PeerRecord>)
      reads this, registry
    {
      && registry.Valid() && Named(start.files) && world == start.world && clock >= start.clock
      && rest <= snapshot && gone <= snapshot - rest && snapshot == Accepted(start)
      && Progress(start.world, start.files, start.sockets, gone, registry.files, sockets, removed)
      && KeepsSuccesses(start.cache, cache, clock) && Spared(start, clock, gone)
      && (Shieldless(start) ==>
            && NoFalseLife(start.world, start.files, start.sockets, cache, clock)
            && Doomed(start.world, start.files, start.sockets) * (snapshot - rest) <= gone)
    }

    /** Look at one candidate. */
    method RepairOne(r: PeerRecord, recent: bool, ghost start: Start, ghost snapshot: set<string>, ghost rest: set<string>,
            ghost gone: set<string>, removed: seq<PeerRecord>)
      returns (ghost gone': set<string>, removed': seq<PeerRecord>)
      requires UnderRepair(start, snapshot, rest, gone, removed)
      requires r.peer in rest && r.peer in registry.files && registry.files[r.peer] == Parsed(r)
      modifies this`sockets, this`cache, this`clock, this`readings, registry
      ensures UnderRepair(start, snapshot, rest - {r.peer}, gone', removed') && (Still() ==> clock == old(clock))
    {
      ghost var files1, sockets1, cache1, clock1 := registry.files, sockets, cache, clock;
      BoundStays(world, start.sockets, sockets1, r);
      var done := Consider(r, recent);
      KeepsCompose(start.cache, cache1, clock1, cache, clock);
      if Shieldless(start) {
        NoFalseLifeAfterProbe(world, start.files, start.sockets, cache1, clock1, cache, clock, r);
      }
      gone', removed' := gone, removed;
      if done {
        ProgressStep(world, start.files, start.sockets, gone, files1, sockets1, removed, r);
        gone', removed' := gone + {r.peer}, removed + [r];
      }
      SparedStep(start, cache1, clock1, clock, gone, r, done);
      DecidedGrows(snapshot, rest, gone, gone', Doomed(world, start.files, start.sockets), r.peer);
    }

    /** `recent` tells which heartbeats are within the threshold.  Whatever the cache holds, only records
        at deserted addresses go.  A cached success that is unexpired all along keeps its record; all
        others go.  With no time passing, exactly the doomed records go if and only if no cached success
        shields one of them. */
    method RepairStale(recent: PeerRecord -> bool) returns (removed: seq<PeerRecord>)
      requires registry.Valid()
      modifies this`sockets, this`cache, this`clock, this`readings, registry
      ensures registry.Valid() && OnlyDesertedGone(world, old(sockets), sockets) && (Still() ==> clock == old(clock))
      ensures var gone := old(registry.files).Keys - registry.files.Keys;
              var doomed := Doomed(world, old(registry.files), old(sockets));
              && registry.files == old(registry.files) - gone
              && gone <= doomed
              && Recorded(old(registry.files), gone, removed)
              && (forall peer <- doomed :: CachedAlive(old(cache), KeyOf(old(registry.files)[peer].record), clock) ==> peer !in gone)
              && (NoFalseLife(world, old(registry.files), old(sockets), old(cache), old(clock)) ==> gone == doomed)
              && (clock == old(clock) ==>
                    (gone == doomed <==> NoFalseLife(world, old(registry.files), old(sockets), old(cache), old(clock))))
    {
      ghost var start := Start(world, registry.files, sockets, cache, clock);
      ghost var snapshot := Accepted(start);
      ghost var gone;
      removed, gone := RepairAll(recent, start);
      RepairIsExact(start, snapshot, gone, removed);
    }

    /** The loop over the accepted records. */
    method RepairAll(recent: PeerRecord -> bool, ghost start: Start) returns (removed: seq<PeerRecord>, ghost gone: set<string>)
      requires registry.Valid() && start == Start(world, registry.files, sockets, cache, clock)
      modifies this`sockets, this`cache, this`clock, this`readings, registry
      ensures UnderRepair(start, Accepted(start), {}, gone, removed) && (Still() ==> clock == old(clock))
    {
      var snapshot := set peer | peer in registry.files && Parseable(registry.files, sockets, world.pathFor, peer);
      var rest := snapshot;
      removed, gone := [], {};
      assert start.files - {} == start.files;
      while rest != {}
        invariant world == start.world && UnderRepair(start, snapshot, rest, gone, removed)
        invariant Still() ==> clock == old(clock)
        decreases rest
      {
        var peer :| peer in rest;
        OnFile(start, snapshot, rest, gone, registry.files, peer);
        var r := registry.files[peer].record;
        gone, removed := RepairOne(r, recent(r), start, snapshot, rest, gone, removed);
        rest := rest - {peer};
      }
    }

    lemma RepairIsExact(start: Start, snapshot: set<string>, gone: set<string>, removed: seq<PeerRecord>)
      requires UnderRepair(start, snapshot, {}, gone, removed)
      ensures var doomed := Doomed(start.world, start.files, start.sockets);
              && gone == start.files.Keys - registry.files.Keys
              && (forall peer <- doomed :: CachedAlive(start.cache, KeyOf(start.files[peer].record), clock) ==> peer !in gone)
              && (Shieldless(start) ==> gone == doomed)
              && (clock == start.clock ==> (gone == doomed <==> Shieldless(start)))
    {
      GoneIsMissing(start.files, gone);
      assert snapshot - {} == snapshot;
      assert forall peer <- Doomed(start.world, start.files, start.sockets) :: peer in snapshot;
    }
  }

  /** A service that has just had an answer for `r` when its listener closes. */
  method AnsweredThenClosed(r: PeerRecord, fd: nat, uid: int, inode: int, pathFor: (string, string) -> string)
    returns (service: DiscoveryService)
    requires r.socketPath != "" && Stamped(r) && Readable(r)
    ensures fresh(service) && fresh(service.registry) && service.registry.Valid() && service.Still()
    ensures service.registry.files == map[r.peer := Parsed(r)] && service.sockets == map[r.socketPath := Node(uid, inode, fd)]
    ensures service.world.openFds == {} && service.world.pathFor == pathFor
    ensures CachedAlive(service.cache, KeyOf(r), service.clock)
  {
    var registry := new Registry();
    registry.Register(r, r.lastSeen);
    service := new DiscoveryService(registry, World({fd}, pathFor, _ => true), map[r.socketPath := Node(uid, inode, fd)], _ => 0.0);
    var alive := service.CachedProbe(r);
    service.ListenerCloses(fd);
  }

  /** A peer answers, its listener closes, and a repair that follows at once keeps the dead record, because
      the answer is still in the cache. */
  method CachedSuccessKeepsADeadRecord(r: PeerRecord, fd: nat, uid: int, inode: int, pathFor: (string, string) -> string)
    returns (service: DiscoveryService, removed: seq<PeerRecord>)
    requires r.socketPath != "" && r.socketPath == pathFor(r.peer, r.instance) && Stamped(r) && Readable(r)
    requires r.socketUid == Some(uid) && r.socketInode == Some(inode)
    ensures fresh(service) && fresh(service.registry)
    ensures removed == [] && service.registry.files == map[r.peer := Parsed(r)]
    ensures r.peer in Doomed(service.world, service.registry.files, service.sockets)
  {
    service := AnsweredThenClosed(r, fd, uid, inode, pathFor);
    ghost var files := service.registry.files;
    OnlyThisIsDoomed(r, service.world, files, service.sockets);
    removed := service.RepairStale(_ => false);
    OnlyThisIsDoomed(r, service.world, files, service.sockets);
    assert files.Keys - service.registry.files.Keys == {};
    assert files - {} == files;
  }

  lemma OnlyThisIsDoomed(r: PeerRecord, w: World, files: Files, sockets: Sockets)
    requires r.socketPath != "" && r.socketPath == w.pathFor(r.peer, r.instance) && w.openFds == {}
    requires files == map[r.peer := Parsed(r)]
    requires r.socketPath in sockets ==> OwnsSocket(sockets, r)
    ensures Doomed(w, files, sockets) == {r.peer}
  {
  }

  /** The state in which a repair starts. */
  datatype Start = Start(world: World, files: Files, sockets: Sockets, cache: Cache, clock: real)

  function Accepted(start: Start): set<string> {
    set peer | peer in start.files && Parseable(start.files, start.sockets, start.world.pathFor, peer)
  }

  ghost predicate Shieldless(start: Start) {
    NoFalseLife(start.world, start.files, start.sockets, start.cache, start.clock)
  }

  /** No deleted record was shielded up to now. */
  ghost predicate Spared(start: Start, clock: real, gone: set<string>) {
    forall peer <- gone :: peer in start.files && start.files[peer].Parsed? ==>
      !CachedAlive(start.cache, KeyOf(start.files[peer].record), clock)
  }

  lemma SparedStep(start: Start, cache: Cache, clock: real, clock': real, gone: set<string>, r: PeerRecord, done: bool)
    requires Spared(start, clock, gone) && clock <= clock' && KeepsSuccesses(start.cache, cache, clock)
    requires r.peer in start.files && start.files[r.peer] == Parsed(r)
    requires done ==> !CachedAlive(cache, KeyOf(r), clock')
    ensures Spared(start, clock', if done then gone + {r.peer} else gone)
  {
    forall k | CachedAlive(start.cache, k, clock') ensures CachedAlive(start.cache, k, clock) && CachedAlive(cache, k, clock') {
    }
  }

  lemma KeepsCompose(a: Cache, b: Cache, tb: real, c: Cache, tc: real)
    requires tb <= tc && KeepsSuccesses(a, b, tb) && KeepsSuccesses(b, c, tc)
    ensures KeepsSuccesses(a, c, tc)
  {
    forall k, t | t >= tc && CachedAlive(a, k, t) ensures CachedAlive(c, k, t) {
      assert CachedAlive(b, k, t);
    }
  }

  /** A candidate not yet looked at is on file as it was. */
  lemma OnFile(start: Start, snapshot: set<string>, rest: set<string>, gone: set<string>, files: Files, peer: string)
    requires snapshot == Accepted(start) && rest <= snapshot && gone <= snapshot - rest && files == start.files - gone && peer in rest
    requires Named(files)
    ensures peer in files && files[peer].Parsed? && files[peer] == start.files[peer] && files[peer].record.peer == peer
  {
    assert NamedAt(files, peer);
  }

  /** The list names each deleted record once. */
  ghost predicate Recorded(files: Files, gone: set<string>, removed: seq<PeerRecord>) {
    && |removed| == |gone|
    && (forall r <- removed :: r.peer in gone && r.peer in files && files[r.peer] == Parsed(r))
    && (forall peer <- gone :: peer in files && files[peer].Parsed? && files[peer].record in removed)
  }

  ghost predicate Progress(w: World, files0: Files, sockets0: Sockets, gone: set<string>, files: Files,
          sockets: Sockets, removed: seq<PeerRecord>) {
    && files == files0 - gone
    && gone <= Doomed(w, files0, sockets0)
    && OnlyDesertedGone(w, sockets0, sockets)
    && Recorded(files0, gone, removed)
  }

  lemma ProgressStep(w: World, files0: Files, sockets0: Sockets, gone: set<string>, files: Files, sockets: Sockets,
          removed: seq<PeerRecord>, r: PeerRecord)
    requires Progress(w, files0, sockets0, gone, files, sockets, removed)
    requires r.peer in files && files0[r.peer] == Parsed(r)
    requires Parseable(files0, sockets0, w.pathFor, r.peer) && Deserted(w, sockets, r)
    ensures Progress(w, files0, sockets0, gone + {r.peer}, files - {r.peer},
                     WithoutSocket(sockets, r), removed + [r])
  {
    BoundStays(w, sockets0, sockets, r);
    assert files0 - (gone + {r.peer}) == files - {r.peer};
  }

  lemma DecidedGrows(snapshot: set<string>, rest: set<string>, gone: set<string>, gone': set<string>,
          doomed: set<string>, peer: string)
    requires rest <= snapshot && gone <= snapshot - rest && peer in rest && gone' in {gone, gone + {peer}}
    ensures rest - {peer} <= snapshot && gone' <= snapshot - (rest - {peer})
    ensures doomed * (snapshot - rest) <= gone && (peer in doomed ==> peer in gone') ==>
              doomed * (snapshot - (rest - {peer})) <= gone'
  {
  }

  lemma GoneIsMissing(files: Files, gone: set<string>)
    requires gone <= files.Keys
    ensures files.Keys - (files - gone).Keys == gone
  {
  }
}
