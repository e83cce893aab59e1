/** The session lifecycle over the supervisor and the registry: each open session's record is held
    three times, and the three copies agree exactly as long as what was written can be read. */
module Sessions {
  import opened Models
  import opened Registries
  import opened Supervisors

  // ---------------------------------------------------------------------------
  // Aliases
  // ---------------------------------------------------------------------------

  const SPACES: set<char> :=
    {' ', '\t', '\n', '\r', '\U{000B}', '\U{000C}', '\U{001C}', '\U{001D}', '\U{001E}', '\U{001F}', '\U{0085}', '\U{00A0}',
     '\U{1680}', '\U{2028}', '\U{2029}', '\U{202F}', '\U{205F}', '\U{3000}', '\U{2000}', '\U{2001}', '\U{2002}', '\U{2003}',
     '\U{2004}', '\U{2005}', '\U{2006}', '\U{2007}', '\U{2008}', '\U{2009}', '\U{200A}'}

  function Strip(name: string): string {
    if name == "" then ""
    else if name[0] in SPACES then Strip(name[1..])
    else if name[|name| - 1] in SPACES then Strip(name[..|name| - 1])
    else name
  }

  /** A single word of at most 64 characters, without separators and not starting with a dash. */
  predicate IsAlias(name: string) {
    && 0 < |name| <= 64 && name[0] != '-'
    && forall c <- name :: c !in SPACES && c != '/' && c != '\\'
  }

  /** One to 64 characters, the first no dash, and none of them space or separator. */
  lemma AliasMeans(name: string)
    ensures IsAlias(name) <==>
            && name != "" && |name| < 65 && name[0] != '-'
            && (forall i :: 0 <= i < |name| ==> name[i] !in SPACES && name[i] !in {'/', '\\'})
  {
    assert forall i :: 0 <= i < |name| ==> name[i] in name;
  }

  function DefaultName(base: string, peer: string): string {
    base + "-" + if |peer| <= 6 then peer else peer[..6]
  }

  function EffectiveName(aliases: map<string, string>, peer: string, base: string): string {
    if peer in aliases && aliases[peer] != "" then aliases[peer] else DefaultName(base, peer)
  }

  lemma AliasesAreStripped(name: string)
    requires IsAlias(name)
    ensures Strip(name) == name
  {
    assert name[0] in name && name[|name| - 1] in name;
  }

  // ---------------------------------------------------------------------------
  // The three copies
  // ---------------------------------------------------------------------------

  /** Equal on every field but the last sighting. */
  predicate Agrees(a: PeerRecord, b: PeerRecord) { b == a.(lastSeen := b.lastSeen) }

  /** Session and supervisor hold agreeing records, and so does the registry as long as its file can be
      read. */
  ghost predicate LinkedAt(sessions: Records, peers: Records, files: Files, s: string)
    requires s in sessions
  {
    var r := sessions[s];
    && r.session == s
    && r.peer in peers && Agrees(r, peers[r.peer])
    && r.peer in files && (files[r.peer].Parsed? ==> Agrees(r, files[r.peer].record))
  }

  ghost predicate Linked(sessions: Records, peers: Records, files: Files) {
    forall s {:trigger LinkedAt(sessions, peers, files, s)} :: s in sessions ==> LinkedAt(sessions, peers, files, s)
  }

  /** Can the registry's copy be read? */
  predicate Listed(sessions: Records, files: Files, s: string) {
    s in sessions && Get(files, sessions[s].peer).Some?
  }

  /** The session, the supervisor and the registry hold agreeing records. */
  ghost predicate MirrorAt(sessions: Records, peers: Records, files: Files, s: string) {
    && s in sessions
    && var r := sessions[s];
    && r.session == s
    && r.peer in peers && Agrees(r, peers[r.peer])
    && Get(files, r.peer).Some? && Agrees(r, Get(files, r.peer).value)
  }

  ghost function Mirrored(sessions: Records, peers: Records, files: Files): set<string> {
    set s | s in sessions && MirrorAt(sessions, peers, files, s)
  }

  lemma MirroredIffListed(sessions: Records, peers: Records, files: Files, s: string)
    requires Linked(sessions, peers, files)
    ensures s in Mirrored(sessions, peers, files) <==> Listed(sessions, files, s)
  {
    if s in sessions {
      assert LinkedAt(sessions, peers, files, s);
    }
  }

  /** Other sessions do not notice what is written for one peer. */
  lemma OthersStay(sessions: Records, peers: Records, files: Files, sessions': Records, peers': Records, files': Files,
          x: string, peer: string)
    requires x in sessions && LinkedAt(sessions, peers, files, x) && sessions[x].peer != peer
    requires x in sessions' && sessions'[x] == sessions[x]
    requires forall p :: p != peer ==> (p in peers' <==> p in peers) && (p in peers ==> peers'[p] == peers[p])
    requires forall p :: p != peer ==> (p in files' <==> p in files) && (p in files ==> files'[p] == files[p])
    ensures LinkedAt(sessions', peers', files', x)
    ensures MirrorAt(sessions', peers', files', x) <==> MirrorAt(sessions, peers, files, x)
  {
  }

  /** One record written to all three places keeps the copies linked; this session's are mirrored
      afterwards exactly if the record is within the ceiling of a file. */
  lemma MirroredAfterUpdate(sessions: Records, peers: Records, files: Files, s: string, updated: PeerRecord)
    requires Linked(sessions, peers, files) && s in sessions && updated.session == s && updated.peer == sessions[s].peer
    ensures var sessions', peers' := sessions[s := updated], peers[updated.peer := updated];
            var files' := files[updated.peer := Written(updated)];
            var before := Mirrored(sessions, peers, files);
            && Linked(sessions', peers', files')
            && Mirrored(sessions', peers', files') == if Readable(updated) then before + {s} else before - {s}
  {
    var sessions', peers' := sessions[s := updated], peers[updated.peer := updated];
    var files' := files[updated.peer := Written(updated)];
    forall x | x in sessions'
      ensures LinkedAt(sessions', peers', files', x)
      ensures MirrorAt(sessions', peers', files', x) <==>
              if x == s then Readable(updated) else MirrorAt(sessions, peers, files, x)
    {
      if x != s {
        PeersAreDistinct(sessions, peers, files, s, x);
        OthersStay(sessions, peers, files, sessions', peers', files', x, updated.peer);
      }
    }
  }

  /** A new bound record agrees in memory, and in all three places exactly if it is within the ceiling. */
  lemma MirroredAfterOpen(sessions: Records, peers: Records, files: Files, bound: PeerRecord)
    requires Linked(sessions, peers, files) && bound.session !in sessions && bound.peer !in peers
    ensures var s := bound.session;
            var sessions', peers' := sessions[s := bound], peers[bound.peer := bound];
            var files' := files[bound.peer := Written(bound)];
            var before := Mirrored(sessions, peers, files);
            && Linked(sessions', peers', files')
            && Mirrored(sessions', peers', files') == if Readable(bound) then before + {s} else before
  {
    var s := bound.session;
    var sessions', peers' := sessions[s := bound], peers[bound.peer := bound];
    var files' := files[bound.peer := Written(bound)];
    forall x | x in sessions'
      ensures LinkedAt(sessions', peers', files', x)
      ensures MirrorAt(sessions', peers', files', x) <==>
              if x == s then Readable(bound) else MirrorAt(sessions, peers, files, x)
    {
      if x != s {
        assert LinkedAt(sessions, peers, files, x);
        OthersStay(sessions, peers, files, sessions', peers', files', x, bound.peer);
      }
    }
  }

  /** Whatever happens to its record file, closing a session leaves the others as they were. */
  lemma MirroredAfterClose(sessions: Records, peers: Records, files: Files, s: string, files': Files)
    requires Linked(sessions, peers, files) && s in sessions
    requires forall p :: p != sessions[s].peer ==> (p in files' <==> p in files) && (p in files ==> files'[p] == files[p])
    ensures var sessions', peers' := sessions - {s}, peers - {sessions[s].peer};
            && Linked(sessions', peers', files')
            && Mirrored(sessions', peers', files') == Mirrored(sessions, peers, files) - {s}
  {
    var sessions', peers' := sessions - {s}, peers - {sessions[s].peer};
    forall x | x in sessions'
      ensures LinkedAt(sessions', peers', files', x)
      ensures MirrorAt(sessions', peers', files', x) <==> MirrorAt(sessions, peers, files, x)
    {
      PeersAreDistinct(sessions, peers, files, s, x);
      OthersStay(sessions, peers, files, sessions', peers', files', x, sessions[s].peer);
    }
  }

  /** A registry record replaced on its own: the copies stay linked exactly if it agrees or cannot be read,
      and mirrored exactly if it agrees and can be. */
  lemma MirroredAfterRewriteIff(sessions: Records, peers: Records, files: Files, s: string, w: PeerRecord)
    requires Linked(sessions, peers, files) && s in sessions && w.peer == sessions[s].peer
    ensures var files' := files[w.peer := Written(w)];
            var before := Mirrored(sessions, peers, files);
            && (Linked(sessions, peers, files') <==> Agrees(sessions[s], w) || !Readable(w))
            && Mirrored(sessions, peers, files') == if Readable(w) && Agrees(sessions[s], w) then before + {s} else before - {s}
  {
    var files' := files[w.peer := Written(w)];
    assert LinkedAt(sessions, peers, files, s);
    assert LinkedAt(sessions, peers, files', s) <==> Agrees(sessions[s], w) || !Readable(w);
    forall x | x in sessions && x != s
      ensures LinkedAt(sessions, peers, files', x)
      ensures MirrorAt(sessions, peers, files', x) <==> MirrorAt(sessions, peers, files, x)
    {
      PeersAreDistinct(sessions, peers, files, s, x);
      OthersStay(sessions, peers, files, sessions, peers, files', x, w.peer);
    }
  }

  /** A heartbeat loses the copy of the session exactly if its new stamp makes the file too long. */
  lemma MirroredAfterHeartbeat(sessions: Records, peers: Records, files: Files, peer: string, now: string)
    requires Linked(sessions, peers, files) && Get(files, peer).Some? && Get(files, peer).value.peer == peer
    ensures var w := Get(files, peer).value.(lastSeen := now);
            var files' := files[peer := Written(w)];
            var before := Mirrored(sessions, peers, files);
            && Linked(sessions, peers, files')
            && Mirrored(sessions, peers, files') ==
               if Readable(w) then before else set s | s in before && sessions[s].peer != peer
  {
    var w := Get(files, peer).value.(lastSeen := now);
    var files' := files[peer := Written(w)];
    if s :| s in sessions && sessions[s].peer == peer {
      assert LinkedAt(sessions, peers, files, s);
      MirroredAfterRewriteIff(sessions, peers, files, s, w);
      MirroredIffListed(sessions, peers, files, s);
      forall x | x in sessions && sessions[x].peer == peer ensures x == s {
        PeersAreDistinct(sessions, peers, files, s, x);
      }
    } else {
      forall x | x in sessions
        ensures LinkedAt(sessions, peers, files', x)
        ensures MirrorAt(sessions, peers, files', x) <==> MirrorAt(sessions, peers, files, x)
      {
        assert LinkedAt(sessions, peers, files, x);
        OthersStay(sessions, peers, files, sessions, peers, files', x, peer);
      }
    }
  }

  /** Two sessions never share a peer. */
  lemma PeersAreDistinct(sessions: Records, peers: Records, files: Files, s: string, t: string)
    requires Linked(sessions, peers, files) && s in sessions && t in sessions
    ensures LinkedAt(sessions, peers, files, s) && LinkedAt(sessions, peers, files, t)
    ensures sessions[s].peer == sessions[t].peer <==> s == t
  {
    assert LinkedAt(sessions, peers, files, s) && LinkedAt(sessions, peers, files, t);
  }

  // ---------------------------------------------------------------------------
  // The lifecycle
  // ---------------------------------------------------------------------------

  datatype Fault = AmbiguousSession | NoSuchSession | AuthorityChanged | InvalidAlias | RegistrationFailed

  /** The host's metadata always carry the time of day. */
  type Stamp = s: string | s != "" witness "0"

  /** What the host and the configuration contribute to a new record. */
  datatype Facts = Facts(profile: string, agent: string, protocols: seq<string>, capabilities: Capabilities, surface: string,
                         pid: int, cwd: string, repository: string, branch: string, startedAt: Stamp, protocol: string)

  /** What the environment decides about one registration. */
  datatype Environment = Environment(peer: string, instance: string, handler: nat, uid: int, inode: int, statFails: bool,
                                     fault: Option<Point>, facts: Facts, base: string)

  function NewRecord(session: string, name: string, e: Environment): PeerRecord {
    var f := e.facts;
    PeerRecord(e.peer, e.instance, session, name, f.profile, f.agent, f.protocols, f.capabilities, f.surface,
               f.surface + ":" + session, Context(f.pid, f.cwd, f.repository, f.branch, f.startedAt), f.startedAt,
               Idle, "", "", None, None, f.protocol)
  }

  /** Field by field, the record an opening session gets. */
  ghost predicate OpenedAs(r: PeerRecord, session: string, name: string, e: Environment, path: string) {
    && r.peer == e.peer && r.instance == e.instance && r.session == session && r.name == name
    && r.profile == e.facts.profile && r.agent == e.facts.agent && r.surface == e.facts.surface
    && r.protocols == e.facts.protocols && r.capabilities == e.facts.capabilities && r.protocol == e.facts.protocol
    && r.target == e.facts.surface + ":" + session
    && r.context == Context(e.facts.pid, e.facts.cwd, e.facts.repository, e.facts.branch, e.facts.startedAt)
    && r.lastSeen == e.facts.startedAt && r.status == Idle && r.activity == ""
    && r.socketPath == path
    && r.socketUid == (if e.statFails then None else Some(e.uid))
    && r.socketInode == (if e.statFails then None else Some(e.inode))
  }

  /** The name of a new session: an alias it takes over, one on file for its peer, or one derived from the
      base name and the first six characters of the peer id. */
  ghost predicate NamedFor(name: string, alias: Option<string>, aliases: map<string, string>, e: Environment) {
    && (alias.Some? ==> name == alias.value)
    && (alias == None && e.peer in aliases && aliases[e.peer] != "" ==> name == aliases[e.peer])
    && (alias == None && (e.peer !in aliases || aliases[e.peer] == "") ==>
          name == e.base + "-" + if |e.peer| < 6 then e.peer else e.peer[..6])
  }

  /** Session and peer maps describe the same sessions. */
  ghost predicate Paired(sessions: Records, sessionToPeer: map<string, string>, handles: set<string>) {
    && sessions.Keys == sessionToPeer.Keys
    && (forall s {:trigger sessionToPeer[s]} :: s in sessionToPeer ==>
          sessionToPeer[s] == sessions[s].peer && sessionToPeer[s] in handles)
  }

  /** The session's record has the new status and, if one was given, the new note; nothing else moved. */
  ghost predicate PresenceSet(before: Records, after: Records, s: string, status: Presence, activity: Option<string>) {
    && after.Keys == before.Keys && s in before
    && after[s] == before[s].(status := status, activity := if activity == None then before[s].activity else activity.value,
                              lastSeen := after[s].lastSeen)
    && forall x <- after :: x != s ==> after[x] == before[x]
  }

  /** The session's record has the new name; nothing else moved. */
  ghost predicate Renamed(before: Records, after: Records, s: string, name: string) {
    && s in before && s in after && Agrees(before[s].(name := name), after[s])
    && after == before[s := after[s]]
  }

  /** Will the registry's copy be there when the turn starts? */
  predicate CanStart(before: Records, files: Files, s: string, bound: PeerRecord) {
    if s in before then Listed(before, files, s) else Readable(bound)
  }

  /** The session is open, with the bound record if it was not; and it is working on this note, unless the
      registry's copy could not be read.  The others are as before. */
  ghost predicate Started(before: Records, ready: bool, after: Records, s: string, bound: PeerRecord, activity: Option<string>) {
    var mid := if s in before then before else before[s := bound];
    if ready then PresenceSet(mid, after, s, Working, activity) else after == mid
  }

  /** The former session is gone and, if registering worked, the new one is started; the others are as
      before. */
  ghost predicate Rotated(before: Records, ready: bool, after: Records, former: string, s: string, bound: PeerRecord,
          activity: Option<string>, ok: bool) {
    if ok then Started(before - {former}, ready, after, s, bound, activity) else after == before - {former}
  }

  /** What a presence write comes to, if the registry's copy can be read. */
  lemma PresenceWritten(sessions: Records, peers: Records, files: Files, s: string, status: Presence, activity: Option<string>,
          now: string)
    requires Linked(sessions, peers, files) && s in sessions
    ensures Listed(sessions, files, s) <==> Matches(files, sessions[s].peer, AuthorityOf(sessions[s]))
    ensures Listed(sessions, files, s) ==>
              var u := Updated(Get(files, sessions[s].peer).value, Change(None, Some(status), activity, Some(now)));
              && u.peer == sessions[s].peer && u.peer in peers && AuthorityOf(peers[u.peer]) == AuthorityOf(u)
              && PresenceSet(sessions, sessions[s := u], s, status, activity)
              && Linked(sessions[s := u], peers[u.peer := u], files[u.peer := Written(u)])
              && var before := Mirrored(sessions, peers, files);
              Mirrored(sessions[s := u], peers[u.peer := u], files[u.peer := Written(u)]) ==
              if Readable(u) then before else before - {s}
  {
    assert LinkedAt(sessions, peers, files, s);
    if Listed(sessions, files, s) {
      var u := Updated(Get(files, sessions[s].peer).value, Change(None, Some(status), activity, Some(now)));
      MirroredIffListed(sessions, peers, files, s);
      MirroredAfterUpdate(sessions, peers, files, s, u);
    }
  }

  /** What a new name in the registry's copy comes to, if that can be read: first on its own, then with the
      other two copies following. */
  lemma NameWritten(sessions: Records, peers: Records, files: Files, s: string, name: string, now: string)
    requires Linked(sessions, peers, files) && s in sessions
    ensures Listed(sessions, files, s) <==> Matches(files, sessions[s].peer, AuthorityOf(sessions[s]))
    ensures Listed(sessions, files, s) ==>
              var w := RenamedFile(files, sessions[s].peer, name, now);
              var files' := files[w.peer := Written(w)];
              var before := Mirrored(sessions, peers, files);
              && w.peer == sessions[s].peer && w.peer in peers && AuthorityOf(peers[w.peer]) == AuthorityOf(w)
              && Renamed(sessions, sessions[s := w], s, name)
              && (Linked(sessions, peers, files') <==> sessions[s].name == name || !Readable(w))
              && Mirrored(sessions, peers, files') == (if Readable(w) && sessions[s].name == name then before else before - {s})
              && Linked(sessions[s := w], peers[w.peer := w], files')
              && Mirrored(sessions[s := w], peers[w.peer := w], files') == if Readable(w) then before else before - {s}
  {
    assert LinkedAt(sessions, peers, files, s);
    if Listed(sessions, files, s) {
      var w := RenamedFile(files, sessions[s].peer, name, now);
      assert Agrees(sessions[s], w) <==> sessions[s].name == name;
      MirroredIffListed(sessions, peers, files, s);
      MirroredAfterRewriteIff(sessions, peers, files, s, w);
      MirroredAfterUpdate(sessions, peers, files, s, w);
    }
  }

  /** Opening, if need be, and then the presence write. */
  lemma StartedBy(before: Records, files: Files, agreed: set<string>, mid: Records, midListed: bool, midAgreed: set<string>,
          after: Records, afterAgreed: set<string>, s: string, bound: PeerRecord, activity: Option<string>)
    requires s in agreed <==> Listed(before, files, s)
    requires mid == if s in before then before else before[s := bound]
    requires midListed == CanStart(before, files, s, bound)
    requires midAgreed == if s in before || !midListed then agreed else agreed + {s}
    requires if midListed then PresenceSet(mid, after, s, Working, activity) else after == mid
    requires s in after && afterAgreed == if !midListed || Readable(after[s]) then midAgreed else midAgreed - {s}
    ensures Started(before, midListed, after, s, bound, activity)
    ensures afterAgreed == if midListed && Readable(after[s]) then agreed + {s} else agreed - {s}
  {
  }

  lemma SameSize(sessions: Records, sessionToPeer: map<string, string>, handles: set<string>)
    requires Paired(sessions, sessionToPeer, handles)
    ensures |sessions| == |sessionToPeer|
  {
    assert |sessions| == |sessions.Keys| && |sessionToPeer| == |sessionToPeer.Keys|;
  }

  lemma OnlySession(sessions: Records, only: string)
    requires |sessions| == 1 && only in sessions
    ensures forall f <- sessions :: f == only
  {
    assert |sessions| == |sessions.Keys|;
    assert sessions.Keys == {only} + (sessions.Keys - {only});
  }

  lemma PairedAfterUpdate(sessions: Records, sessionToPeer: map<string, string>, handles: set<string>, s: string,
          r: PeerRecord)
    requires Paired(sessions, sessionToPeer, handles) && s in sessions && r.peer == sessions[s].peer
    ensures Paired(sessions[s := r], sessionToPeer, handles)
  {
    assert sessions[s := r].Keys == sessions.Keys;
  }

  lemma PairedAfterOpen(sessions: Records, sessionToPeer: map<string, string>, handles: set<string>, r: PeerRecord)
    requires Paired(sessions, sessionToPeer, handles) && r.session !in sessions
    ensures Paired(sessions[r.session := r], sessionToPeer[r.session := r.peer], handles + {r.peer})
  {
    assert sessions[r.session := r].Keys == sessionToPeer[r.session := r.peer].Keys;
  }

  lemma PairedAfterClose(sessions: Records, sessionToPeer: map<string, string>, handles: set<string>,
                         peers: Records, files: Files, s: string)
    requires Paired(sessions, sessionToPeer, handles) && Linked(sessions, peers, files) && s in sessions
    ensures Paired(sessions - {s}, sessionToPeer - {s}, handles - {sessions[s].peer})
  {
    var rest := sessionToPeer - {s};
    forall t | t in rest ensures sessionToPeer[t] in handles - {sessions[s].peer} {
      PeersAreDistinct(sessions, peers, files, s, t);
    }
    assert (sessions - {s}).Keys == rest.Keys;
  }

  class PeerSessions {
    const runtime: PeerRuntimeManager
    var sessions: Records
    var sessionToPeer: map<string, string>
    var handles: set<string>
    var policies: map<string, Policy>
    var aliases: map<string, string>

    ghost predicate Valid()
      reads this, runtime, runtime.registry
    {
      && runtime.Valid()
      && Paired(sessions, sessionToPeer, handles)
      && Linked(sessions, runtime.peers, runtime.registry.files)
      && forall p <- aliases :: IsAlias(aliases[p])
    }

    constructor (runtime: PeerRuntimeManager)
      requires runtime.Valid()
      ensures Valid() && sessions == map[] && this.runtime == runtime
    {
      this.runtime := runtime;
      sessions, sessionToPeer, handles, policies, aliases := map[], map[], {}, map[], map[];
    }

    ghost predicate Consistent()
      reads this, runtime
    {
      Paired(sessions, sessionToPeer, handles) && forall p <- aliases :: IsAlias(aliases[p])
    }

    /** Hand a record the registry has just accepted to the supervisor and the session. */
    method Adopt(session: string, updated: PeerRecord)
      requires runtime.Valid() && Consistent() && session in sessions && updated.peer == sessions[session].peer
      requires updated.peer in runtime.peers && AuthorityOf(runtime.peers[updated.peer]) == AuthorityOf(updated)
      modifies this`sessions, runtime`peers
      ensures runtime.Valid() && Consistent()
      ensures sessions == old(sessions)[session := updated] && runtime.peers == old(runtime.peers)[updated.peer := updated]
    {
      var _ := runtime.UpdateRecord(updated);
      Store(session, updated);
    }

    method Store(session: string, updated: PeerRecord)
      requires runtime.Valid() && Consistent() && session in sessions && updated.peer == sessions[session].peer
      modifies this`sessions
      ensures runtime.Valid() && Consistent() && sessions == old(sessions)[session := updated]
    {
      PairedAfterUpdate(sessions, sessionToPeer, handles, session, updated);
      sessions := sessions[session := updated];
    }

    /** The sessions whose three copies agree. */
    ghost function InAgreement(): set<string>
      reads this, runtime, runtime.registry
    {
      Mirrored(sessions, runtime.peers, runtime.registry.files)
    }

    /** A fenced presence write goes to the registry, and what came of it to the other two copies.  Once
        the registry's copy cannot be read, nothing is written any more. */
    method SetPresence(session: string, status: Presence, activity: Option<string>, now: string)
      requires Valid() && now != ""
      modifies this`sessions, runtime`peers, runtime.registry
      ensures Valid()
      ensures !Listed(old(sessions), old(runtime.registry.files), session) ==>
                sessions == old(sessions) && runtime.registry.files == old(runtime.registry.files) && runtime.peers == old(runtime.peers)
      ensures Listed(old(sessions), old(runtime.registry.files), session) ==>
                && PresenceSet(old(sessions), sessions, session, status, activity)
                && runtime.registry.files == old(runtime.registry.files)[sessions[session].peer := Written(sessions[session])]
                && InAgreement() == if Readable(sessions[session]) then old(InAgreement()) else old(InAgreement()) - {session}
    {
      if session !in sessions {
        return;
      }
      var r := sessions[session];
      PresenceWritten(sessions, runtime.peers, runtime.registry.files, session, status, activity, now);
      var updated := runtime.registry.UpdatePresence(r.peer, status, activity, Some(r), now);
      if updated.None? {
        return;
      }
      Adopt(session, updated.value);
    }

    /** Enter a freshly bound record into the session maps. */
    method Enter(bound: PeerRecord, alias: Option<string>)
      requires Consistent() && bound.session !in sessions && (alias.Some? ==> IsAlias(alias.value))
      modifies this`sessions, this`sessionToPeer, this`handles, this`aliases
      ensures Consistent()
      ensures sessions == old(sessions)[bound.session := bound]
      ensures aliases == if alias.Some? then old(aliases)[bound.peer := alias.value] else old(aliases)
    {
      PairedAfterOpen(sessions, sessionToPeer, handles, bound);
      sessions := sessions[bound.session := bound];
      sessionToPeer := sessionToPeer[bound.session := bound.peer];
      handles := handles + {bound.peer};
      if alias.Some? {
        AliasesAreStripped(alias.value);
        aliases := aliases[bound.peer := Strip(alias.value)];
      }
    }

    function NameFor(alias: Option<string>, e: Environment): string
      reads this
    {
      if alias.Some? then alias.value else EffectiveName(aliases, e.peer, e.base)
    }

    /** The record an opening session gets. */
    ghost function BoundFor(session: string, name: string, e: Environment): PeerRecord {
      BoundRecord(NewRecord(session, name, e), runtime.pathFor(e.peer, e.instance), Stat(e.statFails, e.uid, e.inode))
    }

    lemma BoundIsOpened(session: string, alias: Option<string>, e: Environment)
      ensures OpenedAs(BoundFor(session, NameFor(alias, e), e), session, NameFor(alias, e), e, runtime.pathFor(e.peer, e.instance))
      ensures NamedFor(NameFor(alias, e), alias, aliases, e)
    {
    }

    /** Will the supervisor fail to register this peer? */
    ghost predicate CannotBind(e: Environment)
      reads this, runtime
    {
      Fails(e.fault, runtime.running, runtime.shutDown,
            Bound(runtime.sockets, runtime.openFds, runtime.pathFor(e.peer, e.instance)))
    }

    /** Have the supervisor register a fresh peer. */
    method Bind(record: PeerRecord, e: Environment, now: string) returns (r: Result<PeerRecord, Point>)
      requires runtime.Valid() && now != "" && Linked(sessions, runtime.peers, runtime.registry.files)
      requires record.peer !in runtime.peers && record.peer !in runtime.registry.files && record.session !in sessions
      requires Stamped(record) && record.peer == e.peer && record.instance == e.instance
      modifies runtime, runtime.registry
      ensures runtime.Valid() && (r.Err? <==> old(CannotBind(e)))
      ensures r.Err? ==> runtime.peers == old(runtime.peers) && runtime.registry.files == old(runtime.registry.files)
      ensures r.Ok? ==>
                && r.value == BoundRecord(record, runtime.pathFor(record.peer, record.instance), Stat(e.statFails, e.uid, e.inode))
                && runtime.registry.files == old(runtime.registry.files)[record.peer := Written(r.value)]
                && runtime.peers == old(runtime.peers)[record.peer := r.value]
    {
      r := runtime.RegisterPeer(record, e.handler, e.uid, e.inode, e.statFails, e.fault, now);
    }

    /** Register the peer of a session and file what came of it. */
    method OpenFresh(session: string, name: string, alias: Option<string>, e: Environment, now: string) returns (ok: bool)
      requires Valid() && now != "" && session !in sessions && (alias.Some? ==> IsAlias(alias.value))
      requires e.peer !in runtime.peers && e.peer !in runtime.registry.files
      modifies this`sessions, this`sessionToPeer, this`handles, this`aliases, runtime, runtime.registry
      ensures Valid() && ok == !old(CannotBind(e))
      ensures !ok ==> && sessions == old(sessions) && aliases == old(aliases)
                      && runtime.peers == old(runtime.peers) && runtime.registry.files == old(runtime.registry.files)
      ensures ok ==>
                var bound := BoundFor(session, name, e);
                && sessions == old(sessions)[session := bound]
                && aliases == (if alias.Some? then old(aliases)[e.peer := alias.value] else old(aliases))
                && runtime.registry.files == old(runtime.registry.files)[e.peer := Written(bound)]
                && InAgreement() == if Readable(bound) then old(InAgreement()) + {session} else old(InAgreement())
    {
      ghost var sessions0, peers0, files0 := sessions, runtime.peers, runtime.registry.files;
      var bound := Bind(NewRecord(session, name, e), e, now);
      ok := bound.Ok?;
      if ok {
        MirroredAfterOpen(sessions0, peers0, files0, bound.value);
        Enter(bound.value, alias);
        assert Linked(sessions, runtime.peers, runtime.registry.files);
      }
    }

    /** Open a session; one that is open already is left alone.  The registry's copy of a new one can be
        read exactly if it is within the ceiling. */
    method OpenSession(session: string, alias: Option<string>, e: Environment, now: string)
      returns (r: Result<bool, Fault>)
      requires Valid() && now != "" && (alias.Some? ==> IsAlias(alias.value))
      requires e.peer !in runtime.peers && e.peer !in runtime.registry.files
      modifies this`sessions, this`sessionToPeer, this`handles, this`aliases, runtime, runtime.registry
      ensures Valid()
      ensures r.Err? <==> session !in old(sessions) && old(CannotBind(e))
      ensures r.Ok? ==> r.value == (session !in old(sessions))
      ensures session in old(sessions) ==> r == Ok(false)
      ensures r != Ok(true) ==> && sessions == old(sessions) && aliases == old(aliases)
                                && runtime.peers == old(runtime.peers) && runtime.registry.files == old(runtime.registry.files)
      ensures r == Ok(true) ==>
                var bound := BoundFor(session, old(NameFor(alias, e)), e);
                && sessions == old(sessions)[session := bound]
                && aliases == (if alias.Some? then old(aliases)[e.peer := alias.value] else old(aliases))
                && runtime.registry.files == old(runtime.registry.files)[e.peer := Written(bound)]
                && InAgreement() == if Readable(bound) then old(InAgreement()) + {session} else old(InAgreement())
      ensures r == Ok(true) ==>
                && OpenedAs(sessions[session], session, sessions[session].name, e, runtime.pathFor(e.peer, e.instance))
                && NamedFor(sessions[session].name, alias, old(aliases), e)
    {
      if session in sessionToPeer {
        return Ok(false);
      }
      BoundIsOpened(session, alias, e);
      var ok := OpenFresh(session, NameFor(alias, e), alias, e, now);
      return if ok then Ok(true) else Err(RegistrationFailed);
    }

    /** Tear down the peer of an open session and forget the session. */
    method Close(session: string, now: string)
      requires Valid() && now != "" && session in sessions
      modifies this`sessions, this`sessionToPeer, this`handles, this`policies, runtime, runtime.registry
      ensures Valid() && sessions == old(sessions) - {session}
      ensures policies == old(policies) - {old(sessions)[session].peer}
      ensures runtime.peers == old(runtime.peers) - {old(sessions)[session].peer}
      ensures runtime.registry.files == AfterClose(old(runtime.registry.files), old(sessions)[session].peer, now)
      ensures InAgreement() == old(InAgreement()) - {session}
    {
      var peer := sessions[session].peer;
      CloseFacts(session, now);
      runtime.UnregisterPeer(peer, now);
      Discard(session, peer);
    }

    method Discard(session: string, peer: string)
      modifies this`sessions, this`sessionToPeer, this`handles, this`policies
      ensures sessions == old(sessions) - {session} && sessionToPeer == old(sessionToPeer) - {session}
      ensures handles == old(handles) - {peer} && policies == old(policies) - {peer}
    {
      sessions, sessionToPeer := sessions - {session}, sessionToPeer - {session};
      handles, policies := handles - {peer}, policies - {peer};
    }

    lemma CloseFacts(session: string, now: string)
      requires Valid() && session in sessions
      ensures var peer, files := sessions[session].peer, runtime.registry.files;
              && peer in runtime.peers
              && Paired(sessions - {session}, sessionToPeer - {session}, handles - {peer})
              && Withdrawn(files, peer, AuthorityOf(runtime.peers[peer]), now) == AfterClose(files, peer, now)
              && Linked(sessions - {session}, runtime.peers - {peer}, AfterClose(files, peer, now))
              && Mirrored(sessions - {session}, runtime.peers - {peer}, AfterClose(files, peer, now)) == InAgreement() - {session}
    {
      var peer, files := sessions[session].peer, runtime.registry.files;
      assert LinkedAt(sessions, runtime.peers, files, session);
      WithdrawnOwn(files, peer, AuthorityOf(runtime.peers[peer]), now);
      PairedAfterClose(sessions, sessionToPeer, handles, runtime.peers, files, session);
      MirroredAfterClose(sessions, runtime.peers, files, session, AfterClose(files, peer, now));
    }

    /** The record file goes exactly if it can be read, also when it is marked closing; otherwise it stays
        for good. */
    method Finalize(session: string, now: string)
      requires Valid() && now != ""
      modifies this`sessions, this`sessionToPeer, this`handles, this`policies, runtime, runtime.registry
      ensures Valid() && sessions == old(sessions) - {session}
      ensures InAgreement() == old(InAgreement()) - {session}
      ensures session !in old(sessions) ==>
                && policies == old(policies)
                && runtime.View() == old(runtime.View()) && runtime.registry.files == old(runtime.registry.files)
      ensures session in old(sessions) ==>
                var peer := old(sessions)[session].peer;
                && policies == old(policies) - {peer}
                && runtime.peers == old(runtime.peers) - {peer}
                && runtime.registry.files == AfterClose(old(runtime.registry.files), peer, now)
    {
      if session in sessionToPeer {
        Close(session, now);
      } else {
        assert sessions - {session} == sessions;
      }
    }

    /** Open the session if need be; is the registry's copy there now? */
    method OpenForTurn(session: string, alias: Option<string>, e: Environment, now: string) returns (r: Result<bool, Fault>)
      requires Valid() && now != "" && (alias.Some? ==> IsAlias(alias.value))
      requires e.peer !in runtime.peers && e.peer !in runtime.registry.files
      modifies this`sessions, this`sessionToPeer, this`handles, this`aliases, runtime, runtime.registry
      ensures Valid()
      ensures session in old(InAgreement()) <==> Listed(old(sessions), old(runtime.registry.files), session)
      ensures r.Err? <==> session !in old(sessions) && old(CannotBind(e))
      ensures r.Err? ==> sessions == old(sessions) && InAgreement() == old(InAgreement())
      ensures r.Ok? ==>
                var bound := BoundFor(session, old(NameFor(alias, e)), e);
                var ready := CanStart(old(sessions), old(runtime.registry.files), session, bound);
                && sessions == (if session in old(sessions) then old(sessions) else old(sessions)[session := bound])
                && aliases == (if session in old(sessions) || alias == None then old(aliases) else old(aliases)[e.peer := alias.value])
                && Listed(sessions, runtime.registry.files, session) == ready
                && (session !in old(sessions) ==> NamedFor(sessions[session].name, alias, old(aliases), e))
                && InAgreement() == if session in old(sessions) || !ready then old(InAgreement()) else old(InAgreement()) + {session}
    {
      MirroredIffListed(sessions, runtime.peers, runtime.registry.files, session);
      r := OpenSession(session, alias, e, now);
    }

    /** An open session becomes working, if the registry's copy is there; `before`, `files` and `agreed` are
        from before it was opened, if it was. */
    method Work(session: string, activity: Option<string>, now: string, ghost before: Records, ghost files: Files,
            ghost agreed: set<string>, ghost bound: PeerRecord)
      requires Valid() && now != "" && (session in agreed <==> Listed(before, files, session))
      requires sessions == if session in before then before else before[session := bound]
      requires Listed(sessions, runtime.registry.files, session) == CanStart(before, files, session, bound)
      requires InAgreement() == if session in before || !CanStart(before, files, session, bound) then agreed else agreed + {session}
      modifies this`sessions, runtime`peers, runtime.registry
      ensures Valid() && session in sessions && sessions[session].name == old(sessions)[session].name
      ensures Started(before, CanStart(before, files, session, bound), sessions, session, bound, activity)
      ensures InAgreement() == if CanStart(before, files, session, bound) && Readable(sessions[session])
                               then agreed + {session} else agreed - {session}
    {
      ghost var mid, midListed, midAgreed := sessions, Listed(sessions, runtime.registry.files, session), InAgreement();
      SetPresence(session, Working, activity, now);
      StartedBy(before, files, agreed, mid, midListed, midAgreed, sessions, InAgreement(), session, bound, activity);
    }

    /** The start of a turn; a session that was never opened is opened first. */
    method Start(session: string, alias: Option<string>, activity: Option<string>, e: Environment, now: string)
      returns (r: Result<bool, Fault>)
      requires Valid() && now != "" && (alias.Some? ==> IsAlias(alias.value))
      requires e.peer !in runtime.peers && e.peer !in runtime.registry.files
      modifies this`sessions, this`sessionToPeer, this`handles, this`aliases, runtime, runtime.registry
      ensures Valid()
      ensures r.Err? <==> session !in old(sessions) && old(CannotBind(e))
      ensures r.Err? ==> sessions == old(sessions) && InAgreement() == old(InAgreement())
      ensures r.Ok? ==>
                var bound := BoundFor(session, old(NameFor(alias, e)), e);
                var ready := CanStart(old(sessions), old(runtime.registry.files), session, bound);
                && session in sessions
                && Started(old(sessions), ready, sessions, session, bound, activity)
                && aliases == (if session in old(sessions) || alias == None then old(aliases) else old(aliases)[e.peer := alias.value])
                && (session !in old(sessions) ==> NamedFor(sessions[session].name, alias, old(aliases), e))
                && InAgreement() == (if ready && Readable(sessions[session]) then old(InAgreement()) + {session}
                                     else old(InAgreement()) - {session})
    {
      ghost var bound := BoundFor(session, NameFor(alias, e), e);
      r := OpenForTurn(session, alias, e, now);
      if r.Ok? {
        Work(session, activity, now, old(sessions), old(runtime.registry.files), old(InAgreement()), bound);
      }
    }

    /** The end of a turn clears the note, unless the registry's copy cannot be read. */
    method End(session: string, now: string)
      requires Valid() && now != ""
      modifies this`sessions, runtime`peers, runtime.registry
      ensures Valid()
      ensures !Listed(old(sessions), old(runtime.registry.files), session) ==>
                sessions == old(sessions) && runtime.registry.files == old(runtime.registry.files)
      ensures Listed(old(sessions), old(runtime.registry.files), session) ==>
                && PresenceSet(old(sessions), sessions, session, Idle, Some(""))
                && runtime.registry.files == old(runtime.registry.files)[sessions[session].peer := Written(sessions[session])]
                && InAgreement() == if Readable(sessions[session]) then old(InAgreement()) else old(InAgreement()) - {session}
    {
      if session in sessionToPeer {
        SetPresence(session, Idle, Some(""), now);
      }
    }

    method Heartbeat(peer: string, now: string)
      requires Valid() && now != ""
      modifies runtime.registry
      ensures Valid()
      ensures match Get(old(runtime.registry.files), peer)
              case None => runtime.registry.files == old(runtime.registry.files)
              case Some(r) =>
                var w := r.(lastSeen := now);
                && runtime.registry.files == old(runtime.registry.files)[peer := Written(w)]
                && InAgreement() == if Readable(w) then old(InAgreement())
                                    else set s | s in old(InAgreement()) && s in sessions && sessions[s].peer != peer
    {
      ghost var files0 := runtime.registry.files;
      var updated := runtime.registry.Heartbeat(peer, None, now);
      if updated.Some? {
        assert NamedAt(files0, peer);
        MirroredAfterHeartbeat(sessions, runtime.peers, files0, peer, now);
      }
    }

    /** Close the old session, then start the new one under the alias the old one was given, if any. */
    method Rotate(former: string, session: string, activity: Option<string>, e: Environment, now: string)
      returns (r: Result<bool, Fault>)
      requires Valid() && now != ""
      requires e.peer !in runtime.peers && e.peer !in runtime.registry.files
      modifies this`sessions, this`sessionToPeer, this`handles, this`policies, this`aliases, runtime, runtime.registry
      ensures Valid()
      ensures var bound := BoundFor(session, old(NameFor(Inherited(former), e)), e);
              var ready := CanStart(old(sessions) - {former}, old(runtime.registry.files), session, bound);
              && Rotated(old(sessions), ready, sessions, former, session, bound, activity, r.Ok?)
              && (r.Ok? ==> session in sessions && InAgreement() ==
                            if ready && Readable(sessions[session]) then old(InAgreement()) - {former} + {session}
                            else old(InAgreement()) - {former} - {session})
      ensures r.Ok? && (session !in old(sessions) || session == former) ==>
                var kept := former in old(sessions) && old(sessions)[former].name != "" && old(sessions)[former].peer in old(aliases);
                var alias := if kept then Some(old(aliases)[old(sessions)[former].peer]) else None;
                && NamedFor(sessions[session].name, alias, old(aliases), e)
                && aliases == if kept then old(aliases)[e.peer := alias.value] else old(aliases)
    {
      var alias := Inherited(former);
      if former in sessions {
        CloseKeepsListed(former, session, now);
      } else {
        assert sessions - {former} == sessions;
      }
      ghost var bound := BoundFor(session, NameFor(alias, e), e);
      Finalize(former, now);
      assert BoundFor(session, NameFor(alias, e), e) == bound;
      assert CanStart(sessions, runtime.registry.files, session, bound)
             == CanStart(old(sessions) - {former}, old(runtime.registry.files), session, bound);
      r := Start(session, alias, activity, e, now);
    }

    /** Closing one session adds no file, and does not change whether another one's copy can be read. */
    lemma CloseKeepsListed(former: string, session: string, now: string)
      requires Valid() && former in sessions
      ensures var files := runtime.registry.files;
              var left := AfterClose(files, sessions[former].peer, now);
              && left.Keys <= files.Keys
              && (Listed(sessions - {former}, left, session) <==> Listed(sessions - {former}, files, session))
    {
      PeersAreDistinct(sessions, runtime.peers, runtime.registry.files, former, former);
      if session in sessions {
        PeersAreDistinct(sessions, runtime.peers, runtime.registry.files, former, session);
      }
    }

    /** The alias that a successor of this session takes over. */
    function Inherited(session: string): Option<string>
      reads this
    {
      if session in sessions && session in sessionToPeer && sessions[session].name != "" && sessions[session].peer in aliases
      then Some(aliases[sessions[session].peer]) else None
    }

    /** Without the old session's id only the one open session can be meant. */
    method Reset(former: Option<string>, session: string, activity: Option<string>, e: Environment, now: string)
      returns (r: Result<bool, Fault>)
      requires Valid() && now != ""
      requires e.peer !in runtime.peers && e.peer !in runtime.registry.files
      modifies this`sessions, this`sessionToPeer, this`handles, this`policies, this`aliases, runtime, runtime.registry
      ensures Valid()
      ensures former == None && |old(sessions)| != 1 ==> r == Err(AmbiguousSession) && sessions == old(sessions)
      ensures forall f :: former == Some(f) || (former == None && old(sessions).Keys == {f}) ==>
                var bound := BoundFor(session, old(NameFor(Inherited(f), e)), e);
                var ready := CanStart(old(sessions) - {f}, old(runtime.registry.files), session, bound);
                && Rotated(old(sessions), ready, sessions, f, session, bound, activity, r.Ok?)
                && (r.Ok? ==> session in sessions && InAgreement() ==
                              if ready && Readable(sessions[session]) then old(InAgreement()) - {f} + {session}
                              else old(InAgreement()) - {f} - {session})
    {
      if former.Some? {
        r := Rotate(former.value, session, activity, e, now);
        return;
      }
      SameSize(sessions, sessionToPeer, handles);
      if |sessionToPeer| != 1 {
        return Err(AmbiguousSession);
      }
      var only :| only in sessionToPeer;
      OnlySession(sessions, only);
      r := Rotate(only, session, activity, e, now);
    }

    /** The registry is renamed first; only then is the alias checked, and only then do the other two
        copies follow.  So a name that is no alias leaves the registry renamed on its own, or unreadable. */
    method SetAlias(name: string, session: string, now: string) returns (r: Result<bool, Fault>)
      requires Valid() && now != ""
      modifies this`sessions, this`aliases, runtime`peers, runtime.registry
      ensures runtime.Valid() && Consistent()
      ensures r == if session !in old(sessions) then Err(NoSuchSession)
                   else if !Listed(old(sessions), old(runtime.registry.files), session) then Err(AuthorityChanged)
                   else if IsAlias(Strip(name)) then Ok(true) else Err(InvalidAlias)
      ensures r.Err? ==> sessions == old(sessions) && runtime.peers == old(runtime.peers) && aliases == old(aliases)
      ensures r in {Err(NoSuchSession), Err(AuthorityChanged)} ==> Valid() && runtime.registry.files == old(runtime.registry.files)
      ensures r.Ok? ==>
                && Renamed(old(sessions), sessions, session, name)
                && aliases == old(aliases)[old(sessions)[session].peer := Strip(name)]
      ensures Listed(old(sessions), old(runtime.registry.files), session) ==>
                var peer := old(sessions)[session].peer;
                var w := RenamedFile(old(runtime.registry.files), peer, name, now);
                && runtime.registry.files == old(runtime.registry.files)[peer := Written(w)]
                && (Valid() <==> r.Ok? || old(sessions)[session].name == name || !Readable(w))
                && InAgreement() == if Readable(w) && (r.Ok? || old(sessions)[session].name == name) then old(InAgreement())
                                    else old(InAgreement()) - {session}
    {
      if session !in sessions {
        return Err(NoSuchSession);
      }
      var r0 := sessions[session];
      NameWritten(sessions, runtime.peers, runtime.registry.files, session, name, now);
      var renamed := runtime.registry.UpdateIfCurrent(r0.peer, AuthorityOf(r0), Change(Some(name), None, None, Some(now)), now);
      if renamed.None? {
        return Err(AuthorityChanged);
      }
      if !IsAlias(Strip(name)) {
        return Err(InvalidAlias);
      }
      Rename(session, renamed.value, name);
      return Ok(true);
    }

    method Rename(session: string, renamed: PeerRecord, name: string)
      requires runtime.Valid() && Consistent() && IsAlias(Strip(name))
      requires session in sessions && renamed.peer == sessions[session].peer
      requires renamed.peer in runtime.peers && AuthorityOf(runtime.peers[renamed.peer]) == AuthorityOf(renamed)
      modifies this`sessions, this`aliases, runtime`peers
      ensures runtime.Valid() && Consistent()
      ensures sessions == old(sessions)[session := renamed] && runtime.peers == old(runtime.peers)[renamed.peer := renamed]
      ensures aliases == old(aliases)[renamed.peer := Strip(name)]
    {
      aliases := aliases[renamed.peer := Strip(name)];
      Adopt(session, renamed);
    }
  }

  /** The registry's record under a new name. */
  function RenamedFile(files: Files, peer: string, name: string, now: string): PeerRecord
    requires Get(files, peer).Some?
  {
    Get(files, peer).value.(name := name, lastSeen := now)
  }

  /** The record files after a session is closed: its own is gone, or it cannot be read and stays. */
  function AfterClose(files: Files, peer: string, now: string): Files {
    if Closable(files, peer, now) then files - {peer} else files[peer := Unreadable]
  }

  lemma WithdrawnOwn(files: Files, peer: string, authority: Authority, now: string)
    requires peer in files && (files[peer].Parsed? ==> AuthorityOf(files[peer].record) == authority)
    ensures Withdrawn(files, peer, authority, now) == AfterClose(files, peer, now)
  {
  }

  // ---------------------------------------------------------------------------
  // Long session ids and notes
  // ---------------------------------------------------------------------------

  /** The record of a session with an id of 32 KiB can never be read, so the session is never listed. */
  lemma LongSessionIdIsNeverListed(session: string, name: string, e: Environment, path: string, owner: Option<(int, int)>)
    requires |session| >= 32 * 1024
    ensures !Readable(BoundRecord(NewRecord(session, name, e), path, owner))
  {
    LongSessionIsUnreadable(BoundRecord(NewRecord(session, name, e), path, owner));
  }

  /** A turn starts with a note of 64 KiB.  The session works on it, but its record file can no longer be
      read: the end of the turn changes nothing, and after the session is closed the file is still there. */
  method LongNoteStrandsTheRecord(m: PeerSessions, session: string, note: string, e: Environment, now: string)
    returns (r: Result<bool, Fault>, ghost started: Records, ghost ended: Records)
    requires m.Valid() && now != "" && session !in m.sessions && |note| >= MAX_FILE_BYTES
    requires e.peer !in m.runtime.peers && e.peer !in m.runtime.registry.files
    requires Readable(m.BoundFor(session, m.NameFor(None, e), e))
    modifies m`sessions, m`sessionToPeer, m`handles, m`policies, m`aliases, m.runtime, m.runtime.registry
    ensures m.Valid() && (r.Ok? <==> !old(m.CannotBind(e)))
    ensures r.Ok? ==>
              && session in started && started[session].status == Working && started[session].activity == note
              && ended == started && session !in m.sessions
              && e.peer in m.runtime.registry.files && m.runtime.registry.files[e.peer].Unreadable?
  {
    r := m.Start(session, None, Some(note), e, now);
    started, ended := m.sessions, m.sessions;
    if r.Ok? {
      LongNoteIsUnreadable(m.sessions[session]);
      MirroredIffListed(m.sessions, m.runtime.peers, m.runtime.registry.files, session);
      m.End(session, now);
      ended := m.sessions;
      m.Finalize(session, now);
    }
  }
}
