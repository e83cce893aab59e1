/** The process-global supervisor: peers, handlers, listeners and their owners, accepted connections,
    the supervisor thread, and the socket files it binds and unlinks. */
module Supervisors {
  import opened Models
  import opened Registries

  /** A listening handle: its descriptor and the path it was bound at. */
  datatype Listener = Listener(fd: nat, path: string)

  /** A socket file, and the descriptor that was bound to it. */
  datatype Node = Node(uid: int, inode: int, fd: nat)

  type Sockets = map<string, Node>

  /** Where a registration can fail: while binding, registering with the selector, confirming the
      thread, or writing the record. */
  datatype Point = AtBind | AtSelector | AtThread | AtPublish

  /** Does a listener accept at this path? */
  predicate Bound(sockets: Sockets, openFds: set<nat>, path: string) {
    path in sockets && sockets[path].fd in openFds
  }

  // ---------------------------------------------------------------------------
  // The maps
  // ---------------------------------------------------------------------------

  lemma UpdateRemove<K, V>(m: map<K, V>, k: K, v: V)
    ensures m[k := v] - {k} == m - {k}
    ensures k !in m ==> m - {k} == m
  {
  }

  lemma AddRemove<T>(s: set<T>, x: T)
    requires x !in s
    ensures (s + {x}) - {x} == s
  {
  }

  /** Each map is the other's inverse. */
  ghost predicate Inverse(listeners: map<string, Listener>, owners: map<Listener, string>) {
    && (forall id {:trigger OwnedAt(listeners, owners, id)} :: id in listeners ==> OwnedAt(listeners, owners, id))
    && (forall l {:trigger ListedAt(listeners, owners, l)} :: l in owners ==> ListedAt(listeners, owners, l))
  }

  predicate OwnedAt(listeners: map<string, Listener>, owners: map<Listener, string>, id: string)
    requires id in listeners
  {
    listeners[id] in owners && owners[listeners[id]] == id
  }

  predicate ListedAt(listeners: map<string, Listener>, owners: map<Listener, string>, l: Listener)
    requires l in owners
  {
    owners[l] in listeners && listeners[owners[l]] == l
  }

  lemma InverseAfterInsert(listeners: map<string, Listener>, owners: map<Listener, string>, id: string, l: Listener)
    requires Inverse(listeners, owners) && l !in owners
    ensures Inverse(listeners[id := l], owners[l := id]) <==> id !in listeners
  {
    var listeners', owners' := listeners[id := l], owners[l := id];
    if id in listeners {
      assert OwnedAt(listeners, owners, id) && !ListedAt(listeners', owners', listeners[id]);
    } else {
      forall x | x in listeners' ensures OwnedAt(listeners', owners', x) {
        assert x != id ==> OwnedAt(listeners, owners, x);
      }
      forall k | k in owners' ensures ListedAt(listeners', owners', k) {
        assert k != l ==> ListedAt(listeners, owners, k);
      }
    }
  }

  lemma InverseAfterRemoval(listeners: map<string, Listener>, owners: map<Listener, string>, id: string)
    requires Inverse(listeners, owners) && id in listeners
    ensures Inverse(listeners - {id}, owners - {listeners[id]})
  {
    var listeners', owners' := listeners - {id}, owners - {listeners[id]};
    assert OwnedAt(listeners, owners, id);
    forall x | x in listeners' ensures OwnedAt(listeners', owners', x) {
      assert OwnedAt(listeners, owners, x);
    }
    forall k | k in owners' ensures ListedAt(listeners', owners', k) {
      assert ListedAt(listeners, owners, k);
    }
  }

  /** Peers are filed under their own id, and their records name the path their listener was bound at. */
  ghost predicate Filed(peers: Records, listeners: map<string, Listener>) {
    && peers.Keys == listeners.Keys
    && forall id {:trigger peers[id]} :: id in peers ==> peers[id].peer == id && peers[id].socketPath == listeners[id].path
  }

  /** Owned listeners have distinct open descriptors, and the next descriptor is none that anyone holds. */
  ghost predicate FdsInOrder(owners: map<Listener, string>, openFds: set<nat>, nextFd: nat) {
    && (forall l <- owners :: l.fd in openFds)
    && (forall a, b :: DistinctFds(owners, a, b))
    && forall fd <- openFds :: fd < nextFd
  }

  ghost predicate DistinctFds(owners: map<Listener, string>, a: Listener, b: Listener) {
    a in owners && b in owners && a.fd == b.fd ==> a == b
  }

  lemma FdsAfterRemoval(owners: map<Listener, string>, openFds: set<nat>, nextFd: nat, l: Listener)
    requires FdsInOrder(owners, openFds, nextFd) && l in owners
    ensures FdsInOrder(owners - {l}, openFds - {l.fd}, nextFd)
  {
    var rest := owners - {l};
    forall a, b ensures DistinctFds(rest, a, b) {
      assert DistinctFds(owners, a, b);
    }
    forall a | a in rest ensures a.fd in openFds - {l.fd} {
      assert DistinctFds(owners, a, l);
    }
  }

  lemma FdsAfterInsert(owners: map<Listener, string>, openFds: set<nat>, nextFd: nat, path: string, id: string)
    requires FdsInOrder(owners, openFds, nextFd)
    ensures FdsInOrder(owners[Listener(nextFd, path) := id], openFds + {nextFd}, nextFd + 1)
    ensures Listener(nextFd, path) !in owners
  {
    var more := owners[Listener(nextFd, path) := id];
    forall a, b ensures DistinctFds(more, a, b) {
      assert DistinctFds(owners, a, b);
    }
  }

  /** Connections whose listener belongs to someone else. */
  function Others(connections: map<nat, string>, id: string): map<nat, string> {
    map c | c in connections && connections[c] != id :: connections[c]
  }

  ghost predicate Attached(connections: map<nat, string>, peers: Records) {
    forall c {:trigger connections[c]} :: c in connections ==> connections[c] in peers
  }

  /** Does the file at the record's path still carry the recorded owner and inode? */
  predicate OwnsSocket(sockets: Sockets, r: PeerRecord) {
    && r.socketPath != "" && r.socketPath in sockets
    && Some(sockets[r.socketPath].uid) == r.socketUid && Some(sockets[r.socketPath].inode) == r.socketInode
  }

  function Stat(fails: bool, uid: int, inode: int): Option<(int, int)> { if fails then None else Some((uid, inode)) }

  /** The record as it is published: with the path and, if they could be read, owner and inode. */
  function BoundRecord(r: PeerRecord, path: string, owner: Option<(int, int)>): PeerRecord {
    r.(socketPath := path, socketUid := if owner.Some? then Some(owner.value.0) else None,
       socketInode := if owner.Some? then Some(owner.value.1) else None)
  }

  /** Field by field, what a record becomes when it is bound: its address is the path, owner and inode are
      those of the socket file, if they could be read, and nothing else changes. */
  ghost predicate Announced(r: PeerRecord, path: string, uid: int, inode: int, statFails: bool, bound: PeerRecord) {
    && bound.socketPath == path
    && bound.socketUid == (if statFails then None else Some(uid))
    && bound.socketInode == (if statFails then None else Some(inode))
    && bound.(socketPath := r.socketPath, socketUid := r.socketUid, socketInode := r.socketInode) == r
  }

  /** Everything the supervisor keeps in memory. */
  datatype Maps = Maps(
    peers: Records, handlers: map<string, nat>, listeners: map<string, Listener>,
    owners: map<Listener, string>, connections: map<nat, string>, selected: set<Listener>,
    running: bool, shutDown: bool, openFds: set<nat>, nextFd: nat)

  ghost predicate Coherent(m: Maps) {
    && m.peers.Keys == m.handlers.Keys
    && Filed(m.peers, m.listeners)
    && Inverse(m.listeners, m.owners)
    && Attached(m.connections, m.peers)
    && m.selected == m.owners.Keys
    && (m.running <==> m.peers != map[])
    && (m.shutDown ==> m.peers == map[])
    && FdsInOrder(m.owners, m.openFds, m.nextFd)
  }

  function Registered(m: Maps, r: PeerRecord, handler: nat): Maps {
    var l := Listener(m.nextFd, r.socketPath);
    m.(peers := m.peers[r.peer := r], handlers := m.handlers[r.peer := handler], listeners := m.listeners[r.peer := l],
       owners := m.owners[l := r.peer], selected := m.selected + {l}, running := true,
       openFds := m.openFds + {m.nextFd}, nextFd := m.nextFd + 1)
  }

  /** After a failed registration of `id`: its entries are gone, whoever made them; a listener it had
      before is disowned only if the new one had not taken its place. */
  function RolledBack(m: Maps, id: string, replaced: bool, nextFd: nat): Maps {
    m.(peers := m.peers - {id}, handlers := m.handlers - {id}, listeners := m.listeners - {id},
       owners := if id in m.listeners && !replaced then m.owners - {m.listeners[id]} else m.owners,
       running := m.running && m.peers - {id} != map[], nextFd := nextFd)
  }

  function Opened(m: Maps): Maps { m.(openFds := m.openFds + {m.nextFd}, nextFd := m.nextFd + 1) }

  function Closed(m: Maps, l: Listener): Maps { m.(openFds := m.openFds - {l.fd}, selected := m.selected - {l}) }

  function Forgotten(m: Maps, id: string): Maps { RolledBack(m, id, false, m.nextFd) }

  function Unregistered(m: Maps, id: string): Maps {
    var gone := if id in m.listeners then {m.listeners[id]} else {};
    m.(peers := m.peers - {id}, handlers := m.handlers - {id}, listeners := m.listeners - {id}, owners := m.owners - gone,
       connections := Others(m.connections, id), selected := m.selected - gone,
       running := m.running && m.peers - {id} != map[],
       openFds := if id in m.listeners then m.openFds - {m.listeners[id].fd} else m.openFds)
  }

  /** A registration that goes through keeps the invariant exactly for an id not yet registered: for
      a known one the listener it had stays owned, selected and open, with nothing leading to it. */
  lemma RegisteredCoherentIff(m: Maps, r: PeerRecord, handler: nat)
    requires Coherent(m) && !m.shutDown
    ensures Coherent(Registered(m, r, handler)) <==> r.peer !in m.peers
  {
    var l := Listener(m.nextFd, r.socketPath);
    FdsAfterInsert(m.owners, m.openFds, m.nextFd, r.socketPath, r.peer);
    InverseAfterInsert(m.listeners, m.owners, r.peer, l);
    assert r.peer in m.peers <==> r.peer in m.listeners;
    RegisteredRest(m, r, handler);
  }

  lemma RegisteredRest(m: Maps, r: PeerRecord, handler: nat)
    requires Coherent(m)
    ensures var t := Registered(m, r, handler);
            t.peers.Keys == t.handlers.Keys && Filed(t.peers, t.listeners) && Attached(t.connections, t.peers)
            && t.selected == t.owners.Keys && t.peers != map[]
  {
    var l := Listener(m.nextFd, r.socketPath);
    KeysAfterUpdate(m.peers, r.peer, r);
    KeysAfterUpdate(m.handlers, r.peer, handler);
    KeysAfterUpdate(m.owners, l, r.peer);
    FiledAfterInsert(m.peers, m.listeners, r, l);
    assert r.peer in m.peers[r.peer := r];
  }

  lemma KeysAfterUpdate<K, V>(m: map<K, V>, k: K, v: V)
    ensures m[k := v].Keys == m.Keys + {k}
  {
  }

  lemma FiledAfterInsert(peers: Records, listeners: map<string, Listener>, r: PeerRecord, l: Listener)
    requires Filed(peers, listeners) && l.path == r.socketPath
    ensures Filed(peers[r.peer := r], listeners[r.peer := l])
  {
    KeysAfterUpdate(peers, r.peer, r);
    KeysAfterUpdate(listeners, r.peer, l);
  }

  /** A registration that fails restores everything exactly when the id was not registered before. */
  lemma RolledBackRestoresIff(m: Maps, id: string, replaced: bool, nextFd: nat)
    requires Coherent(m) && m.nextFd <= nextFd
    ensures RolledBack(m, id, replaced, nextFd) == m.(nextFd := nextFd) <==> id !in m.peers
    ensures Coherent(RolledBack(m, id, replaced, nextFd)) <==> id !in m.peers
  {
    if id in m.peers {
      RolledBackKnown(m, id, replaced, nextFd);
    } else {
      RolledBackUnknown(m, id, replaced, nextFd);
    }
  }

  lemma RolledBackKnown(m: Maps, id: string, replaced: bool, nextFd: nat)
    requires Coherent(m) && id in m.peers
    ensures RolledBack(m, id, replaced, nextFd) != m.(nextFd := nextFd) && !Coherent(RolledBack(m, id, replaced, nextFd))
  {
    var t := RolledBack(m, id, replaced, nextFd);
    assert id !in t.peers;
    var l := m.listeners[id];
    assert OwnedAt(m.listeners, m.owners, id) && l in t.selected;
    assert l in t.owners ==> !ListedAt(t.listeners, t.owners, l);
  }

  lemma RolledBackUnknown(m: Maps, id: string, replaced: bool, nextFd: nat)
    requires Coherent(m) && id !in m.peers && m.nextFd <= nextFd
    ensures RolledBack(m, id, replaced, nextFd) == m.(nextFd := nextFd) && Coherent(m.(nextFd := nextFd))
  {
    assert m.peers - {id} == m.peers && m.handlers - {id} == m.handlers && m.listeners - {id} == m.listeners;
  }

  /** Undoing a bind, before anything was filed. */
  lemma EarlyRollBack(m: Maps, id: string, path: string)
    requires Coherent(m)
    ensures Forgotten(Closed(Opened(m), Listener(m.nextFd, path)), id) == RolledBack(m, id, false, m.nextFd + 1)
  {
    FdsAfterInsert(m.owners, m.openFds, m.nextFd, path, id);
    assert (m.openFds + {m.nextFd}) - {m.nextFd} == m.openFds;
  }

  /** Undoing a registration after its entries were filed. */
  lemma LateRollBack(m: Maps, r: PeerRecord, handler: nat, running: bool)
    requires Coherent(m) && (m.running ==> running)
    ensures var l := Listener(m.nextFd, r.socketPath);
            Forgotten(Closed(Registered(m, r, handler).(running := running), l), r.peer)
            == RolledBack(m, r.peer, true, m.nextFd + 1)
  {
    var l := Listener(m.nextFd, r.socketPath);
    FdsAfterInsert(m.owners, m.openFds, m.nextFd, r.socketPath, r.peer);
    UpdateRemove(m.peers, r.peer, r);
    UpdateRemove(m.handlers, r.peer, handler);
    UpdateRemove(m.listeners, r.peer, l);
    UpdateRemove(m.owners, l, r.peer);
    AddRemove(m.openFds, m.nextFd);
    AddRemove(m.selected, l);
    assert m.peers - {r.peer} != map[] ==> m.peers != map[];
  }

  lemma UnregisteredUnknown(m: Maps, id: string)
    requires Coherent(m) && id !in m.peers
    ensures Unregistered(m, id) == m
  {
    assert m.peers - {id} == m.peers && m.handlers - {id} == m.handlers && m.listeners - {id} == m.listeners;
    assert Others(m.connections, id) == m.connections && m.selected - {} == m.selected && m.owners - {} == m.owners;
  }

  lemma UnregisteredRest(m: Maps, id: string)
    requires Coherent(m) && id in m.peers
    ensures var t := Unregistered(m, id);
            && t.peers.Keys == t.handlers.Keys && Filed(t.peers, t.listeners) && Attached(t.connections, t.peers)
            && t.selected == t.owners.Keys
  {
  }

  /** Tearing a peer down, known or not, keeps the invariant. */
  lemma UnregisteredCoherent(m: Maps, id: string)
    requires Coherent(m)
    ensures Coherent(Unregistered(m, id))
  {
    if id in m.peers {
      UnregisteredRest(m, id);
      assert OwnedAt(m.listeners, m.owners, id);
      InverseAfterRemoval(m.listeners, m.owners, id);
      FdsAfterRemoval(m.owners, m.openFds, m.nextFd, m.listeners[id]);
    } else {
      UnregisteredUnknown(m, id);
    }
  }

  /** Registering a fresh id and then unregistering it restores every map. */
  lemma UnregisterUndoesRegister(m: Maps, r: PeerRecord, handler: nat)
    requires Coherent(m) && !m.shutDown && r.peer !in m.peers
    ensures Unregistered(Registered(m, r, handler), r.peer) == m.(nextFd := m.nextFd + 1)
  {
    LateRollBack(m, r, handler, true);
    RolledBackRestoresIff(m, r.peer, true, m.nextFd + 1);
    NoConnectionsYet(m.connections, m.peers, r.peer);
  }

  /** It also restores the socket files, but for an empty path, exactly if the socket file could be read;
      otherwise the file stays behind. */
  lemma UnregisterUnlinksItsSocket(before: Sockets, r: PeerRecord, path: string, uid: int, inode: int, statFails: bool,
          bound: PeerRecord, fd: nat)
    requires Announced(r, path, uid, inode, statFails, bound) && path != ""
    ensures WithoutOwned(before[path := Node(uid, inode, fd)], bound) ==
            if statFails then before[path := Node(uid, inode, fd)] else before - {path}
  {
    UpdateRemove(before, path, Node(uid, inode, fd));
  }

  /** And the record files, exactly if the published record can be read, also when it is marked closing. */
  lemma UnregisterRetractsItsRecord(before: Files, bound: PeerRecord, now: string, later: string)
    requires bound.peer !in before
    ensures var published := Published(before, bound, now);
            Withdrawn(published, bound.peer, AuthorityOf(bound), later) ==
            if Closable(published, bound.peer, later) then before else before[bound.peer := Unreadable]
  {
    UpdateRemove(before, bound.peer, Written(Stored(bound, now)));
  }

  lemma NoConnectionsYet(connections: map<nat, string>, peers: Records, id: string)
    requires Attached(connections, peers) && id !in peers
    ensures Others(connections, id) == connections
  {
  }

  /** The socket files after a peer with record `r` is torn down. */
  function WithoutOwned(sockets: Sockets, r: PeerRecord): Sockets {
    if OwnsSocket(sockets, r) then sockets - {r.socketPath} else sockets
  }

  ghost predicate Remains(peers: Records, rest: Records) {
    forall id <- rest :: id in peers && rest[id] == peers[id]
  }

  ghost predicate OwnedByOne(sockets: Sockets, peers: Records, path: string) {
    exists id <- peers :: OwnsSocket(sockets, peers[id]) && peers[id].socketPath == path
  }

  /** No file appears or changes, and only files that a peer owns disappear. */
  ghost predicate UnlinkedByOwners(before: Sockets, after: Sockets, peers: Records) {
    && (forall path <- after :: path in before && after[path] == before[path])
    && (forall path <- before :: path in after || OwnedByOne(before, peers, path))
  }

  lemma UnlinkStep(sockets0: Sockets, sockets: Sockets, peers0: Records, peers: Records, id: string)
    requires UnlinkedByOwners(sockets0, sockets, peers0) && Remains(peers0, peers) && id in peers
    ensures UnlinkedByOwners(sockets0, WithoutOwned(sockets, peers[id]), peers0) && Remains(peers0, peers - {id})
  {
    if OwnsSocket(sockets, peers[id]) {
      assert OwnsSocket(sockets0, peers0[id]);
      assert OwnedByOne(sockets0, peers0, peers[id].socketPath);
    }
  }

  /** The peers whose record file still carries their authority. */
  function Current(files: Files, peers: Records): set<string> {
    set id | id in peers && Matches(files, id, AuthorityOf(peers[id]))
  }

  function ClosingChange(now: string): Change { Change(None, Some(Closing), None, Some(now)) }

  /** Can the record still be read once it is marked closing? */
  predicate Closable(files: Files, id: string, now: string) {
    Get(files, id).Some? && Readable(Updated(Get(files, id).value, ClosingChange(now)))
  }

  /** The record files after a peer with this authority is torn down: a record of its own is removed if it
      can still be read as closing, and stays behind unreadable otherwise. */
  function Withdrawn(files: Files, id: string, authority: Authority, now: string): Files {
    if !Matches(files, id, authority) then files
    else if Closable(files, id, now) then files - {id}
    else files[id := Unreadable]
  }

  /** The same for all peers that are no longer among `rest`. */
  function Retired(files: Files, peers: Records, rest: Records, now: string): Files {
    map id | id in files && !(IsRetired(files, peers, rest, id) && Closable(files, id, now)) ::
      if IsRetired(files, peers, rest, id) then Unreadable else files[id]
  }

  predicate IsRetired(files: Files, peers: Records, rest: Records, id: string) {
    id in Current(files, peers) && id !in rest
  }

  lemma NothingRetired(files: Files, peers: Records, now: string)
    ensures Retired(files, peers, peers, now) == files
  {
  }

  /** A peer among `rest` has its file as it was. */
  lemma NotRetired(files: Files, peers: Records, rest: Records, id: string, now: string)
    requires id in rest
    ensures var mid := Retired(files, peers, rest, now);
            && (id in mid <==> id in files) && (id in files ==> mid[id] == files[id])
            && Get(mid, id) == Get(files, id)
  {
  }

  lemma RetireStep(files: Files, peers: Records, rest: Records, id: string, now: string)
    requires Remains(peers, rest) && id in rest
    ensures Withdrawn(Retired(files, peers, rest, now), id, AuthorityOf(rest[id]), now)
            == Retired(files, peers, rest - {id}, now)
  {
    var mid := Retired(files, peers, rest, now);
    NotRetired(files, peers, rest, id, now);
    var left := Withdrawn(mid, id, AuthorityOf(rest[id]), now);
    assert Closable(mid, id, now) == Closable(files, id, now);
    assert Matches(mid, id, AuthorityOf(rest[id])) == IsRetired(files, peers, rest - {id}, id);
    forall x | x != id ensures (x in left <==> x in mid) && (x in left ==> left[x] == mid[x]) {
    }
    RetireOne(files, peers, rest, id, now, left);
  }

  lemma RetireOne(files: Files, peers: Records, rest: Records, id: string, now: string, left: Files)
    requires id in rest
    requires var mid := Retired(files, peers, rest, now);
             && (forall x :: x != id ==> (x in left <==> x in mid) && (x in left ==> left[x] == mid[x]))
             && (id in left <==> id in files && !(IsRetired(files, peers, rest - {id}, id) && Closable(files, id, now)))
             && (id in left ==> left[id] == if IsRetired(files, peers, rest - {id}, id) then Unreadable else files[id])
    ensures left == Retired(files, peers, rest - {id}, now)
  {
    var after := Retired(files, peers, rest - {id}, now);
    forall x ensures (x in left <==> x in after) && (x in left ==> left[x] == after[x]) {
      assert x != id ==> IsRetired(files, peers, rest - {id}, x) == IsRetired(files, peers, rest, x);
    }
  }

  lemma EmptyIsIdle(m: Maps)
    requires Coherent(m)
    ensures m.peers == map[] ==> m.connections == map[] && m.selected == {} && !m.running && Coherent(m.(shutDown := true))
  {
    if m.owners != map[] {
      var l :| l in m.owners;
      assert ListedAt(m.listeners, m.owners, l) && m.owners[l] in m.peers;
    }
    if m.connections != map[] {
      var c :| c in m.connections;
      assert m.connections[c] in m.peers;
    }
  }

  /** Marking a record closing and then removing it behind the fence comes to a withdrawal; the removal goes
      through as without the mark exactly if the marked record can still be read. */
  lemma ClosingThenRemoveIff(files: Files, id: string, authority: Authority, now: string)
    ensures var marked := ApplyOp(files, Update(id, authority, ClosingChange(now)));
            && ApplyOp(marked, Remove(id, authority)) == Withdrawn(files, id, authority, now)
            && (ApplyOp(marked, Remove(id, authority)) == ApplyOp(files, Remove(id, authority))
                <==> (Matches(files, id, authority) ==> Closable(files, id, now)))
  {
    if Matches(files, id, authority) {
      var closing := Updated(Get(files, id).value, ClosingChange(now));
      var marked := files[id := Written(closing)];
      assert ApplyOp(files, Update(id, authority, ClosingChange(now))) == marked;
      assert Readable(closing) ==> marked - {id} == files - {id};
      assert id !in files - {id} && id in files[id := Unreadable];
    }
  }

  lemma AbsentIsKept(files: Files, r: PeerRecord)
    ensures r.peer !in files ==> ApplyOp(files, Remove(r.peer, AuthorityOf(r))) == files
  {
  }

  /** Does a registration fail?  The thread has to be started only when it is not running yet. */
  predicate Fails(fault: Option<Point>, running: bool, shutDown: bool, taken: bool) {
    taken || shutDown || fault in {Some(AtBind), Some(AtSelector), Some(AtPublish)} || (fault == Some(AtThread) && !running)
  }

  class PeerRuntimeManager {
    const registry: Registry
    /** The directory scheme: the socket path of a peer and instance. */
    const pathFor: (string, string) -> string
    var peers: Records
    var handlers: map<string, nat>
    var listeners: map<string, Listener>
    var owners: map<Listener, string>
    var connections: map<nat, string>
    /** Listeners registered with the selector. */
    var selected: set<Listener>
    var running: bool
    var shutDown: bool
    /** The socket directory, the open descriptors behind it, and the next descriptor. */
    var sockets: Sockets
    var openFds: set<nat>
    var nextFd: nat

    ghost function View(): Maps
      reads this
    {
      Maps(peers, handlers, listeners, owners, connections, selected, running, shutDown, openFds, nextFd)
    }

    ghost predicate Valid()
      reads this, registry
    {
      registry.Valid() && Coherent(View())
    }

    constructor (registry: Registry, pathFor: (string, string) -> string)
      requires registry.Valid()
      ensures Valid() && peers == map[] && this.registry == registry && this.pathFor == pathFor
      ensures sockets == map[] && openFds == {} && connections == map[]
    {
      this.registry, this.pathFor := registry, pathFor;
      peers, handlers, listeners, owners, connections, selected := map[], map[], map[], map[], map[], {};
      running, shutDown := false, false;
      sockets, openFds, nextFd := map[], {}, 0;
    }

    /** Remove the socket file at a path nobody listens on. */
    method ReclaimStaleSocket(path: string)
      modifies this`sockets
      ensures sockets == if Bound(old(sockets), openFds, path) then old(sockets) else old(sockets) - {path}
    {
      if path !in sockets {
        assert sockets - {path} == sockets;
        return;
      }
      if Bound(sockets, openFds, path) {
        return;
      }
      sockets := sockets - {path};
    }

    /** Bind at `path`; the path must be free.  A failed bind removes whatever is at the path. */
    method BindListener(path: string, uid: int, inode: int, fails: bool) returns (l: Option<Listener>)
      modifies this`sockets, this`openFds, this`nextFd
      ensures l.Some? <==> !fails && path !in old(sockets)
      ensures l.Some? ==>
                && l.value == Listener(old(nextFd), path) && nextFd == old(nextFd) + 1
                && sockets == old(sockets)[path := Node(uid, inode, old(nextFd))] && openFds == old(openFds) + {old(nextFd)}
      ensures l.None? ==> sockets == old(sockets) - {path} && openFds == old(openFds) && nextFd == old(nextFd)
    {
      if fails || path in sockets {
        sockets := sockets - {path};
        return None;
      }
      l := Some(Listener(nextFd, path));
      sockets := sockets[path := Node(uid, inode, nextFd)];
      openFds := openFds + {nextFd};
      nextFd := nextFd + 1;
    }

    /** Close the descriptor and remove the file it was bound to. */
    method CloseListener(l: Listener)
      modifies this`sockets, this`openFds, this`selected
      ensures sockets == old(sockets) - {l.path} && openFds == old(openFds) - {l.fd} && selected == old(selected) - {l}
    {
      selected := selected - {l};
      sockets, openFds := sockets - {l.path}, openFds - {l.fd};
    }

    /** Take `id` out of every map, and its recorded listener out of the owners. */
    method Forget(id: string)
      modifies this`peers, this`handlers, this`listeners, this`owners
      ensures peers == old(peers) - {id} && handlers == old(handlers) - {id} && listeners == old(listeners) - {id}
      ensures owners == if id in old(listeners) then old(owners) - {old(listeners)[id]} else old(owners)
    {
      peers, handlers := peers - {id}, handlers - {id};
      if id in listeners {
        owners := owners - {listeners[id]};
      }
      listeners := listeners - {id};
    }

    method StopIfIdle()
      modifies this`running
      ensures running == (old(running) && peers != map[])
    {
      if peers == map[] {
        running := false;
      }
    }

    /** The except branch of a registration that got as far as `listener` and `record`. */
    method RollBack(record: PeerRecord, listener: Option<Listener>)
      requires registry.Valid()
      modifies this, registry
      ensures registry.Valid() && registry.files == ApplyOp(old(registry.files), Remove(record.peer, AuthorityOf(record)))
      ensures sockets == if listener.Some? then old(sockets) - {listener.value.path} else old(sockets)
      ensures View() == Forgotten(if listener.Some? then Closed(old(View()), listener.value) else old(View()), record.peer)
    {
      if listener.Some? {
        CloseListener(listener.value);
      }
      Forget(record.peer);
      var _ := registry.UnregisterIfCurrent(record.peer, AuthorityOf(record));
      StopIfIdle();
    }

    method Admit(record: PeerRecord, handler: nat, l: Listener)
      modifies this`peers, this`handlers, this`listeners, this`owners, this`selected
      ensures peers == old(peers)[record.peer := record] && handlers == old(handlers)[record.peer := handler]
      ensures listeners == old(listeners)[record.peer := l] && owners == old(owners)[l := record.peer]
      ensures selected == old(selected) + {l}
    {
      selected := selected + {l};
      peers, handlers := peers[record.peer := record], handlers[record.peer := handler];
      listeners, owners := listeners[record.peer := l], owners[l := record.peer];
    }

    /** Nothing was bound. */
    method RollBackUnbound(record: PeerRecord)
      requires registry.Valid()
      modifies this, registry
      ensures registry.Valid() && sockets == old(sockets)
      ensures View() == RolledBack(old(View()), record.peer, false, old(nextFd))
      ensures record.peer !in old(registry.files) ==> registry.files == old(registry.files)
    {
      RollBack(record, None);
    }

    method RollBackEarly(bound: PeerRecord, l: Listener, ghost before: Maps)
      requires registry.Valid() && Coherent(before) && View() == Opened(before) && l == Listener(before.nextFd, bound.socketPath)
      modifies this, registry
      ensures registry.Valid() && registry.files == ApplyOp(old(registry.files), Remove(bound.peer, AuthorityOf(bound)))
      ensures sockets == old(sockets) - {bound.socketPath}
      ensures View() == RolledBack(before, bound.peer, false, before.nextFd + 1)
    {
      EarlyRollBack(before, bound.peer, l.path);
      RollBack(bound, Some(l));
    }

    method RollBackLate(bound: PeerRecord, handler: nat, l: Listener, ghost before: Maps)
      requires registry.Valid() && Coherent(before) && (before.running ==> running)
      requires View() == Registered(before, bound, handler).(running := running) && l == Listener(before.nextFd, bound.socketPath)
      modifies this, registry
      ensures registry.Valid() && registry.files == ApplyOp(old(registry.files), Remove(bound.peer, AuthorityOf(bound)))
      ensures sockets == old(sockets) - {bound.socketPath}
      ensures View() == RolledBack(before, bound.peer, true, before.nextFd + 1)
    {
      LateRollBack(before, bound, handler, running);
      RollBack(bound, Some(l));
    }

    /** Start the thread if it is not running, then publish; the entries are in place. */
    method Publish(bound: PeerRecord, handler: nat, l: Listener, fault: Option<Point>, now: string, ghost before: Maps)
      returns (r: Result<PeerRecord, Point>)
      requires registry.Valid() && now != "" && Coherent(before) && running == before.running
      requires View() == Registered(before, bound, handler).(running := running) && l == Listener(before.nextFd, bound.socketPath)
      modifies this, registry
      ensures registry.Valid()
      ensures r.Err? <==> fault == Some(AtPublish) || (fault == Some(AtThread) && !before.running)
      ensures r.Err? ==> && sockets == old(sockets) - {bound.socketPath} && r.error in {AtThread, AtPublish}
                         && View() == RolledBack(before, bound.peer, true, before.nextFd + 1)
                         && registry.files == ApplyOp(old(registry.files), Remove(bound.peer, AuthorityOf(bound)))
      ensures r.Ok? ==> && r.value == bound && sockets == old(sockets) && View() == Registered(before, bound, handler)
                        && registry.files == Published(old(registry.files), bound, now)
    {
      var started := running || fault != Some(AtThread);
      running := started;
      if !started || fault == Some(AtPublish) {
        RollBackLate(bound, handler, l, before);
        return Err(if started then AtPublish else AtThread);
      }
      Announce(bound, handler, now, before);
      return Ok(bound);
    }

    /** The last step of a registration: its record is written. */
    method Announce(bound: PeerRecord, handler: nat, now: string, ghost before: Maps)
      requires registry.Valid() && now != "" && running
      requires View() == Registered(before, bound, handler).(running := running)
      modifies registry
      ensures registry.Valid() && registry.files == Published(old(registry.files), bound, now)
      ensures View() == Registered(before, bound, handler)
    {
      registry.Register(bound, now);
    }

    /** Everything after a successful bind. */
    method Complete(bound: PeerRecord, handler: nat, l: Listener, fault: Option<Point>, now: string, ghost before: Maps)
      returns (r: Result<PeerRecord, Point>)
      requires registry.Valid() && now != "" && Coherent(before)
      requires View() == Opened(before) && l == Listener(before.nextFd, bound.socketPath)
      modifies this, registry
      ensures registry.Valid()
      ensures r.Err? <==> || fault in {Some(AtSelector), Some(AtPublish)} || before.shutDown
                          || (fault == Some(AtThread) && !before.running)
      ensures r.Err? ==> && sockets == old(sockets) - {bound.socketPath}
                         && View() == RolledBack(before, bound.peer, r.error in {AtThread, AtPublish}, before.nextFd + 1)
                         && registry.files == ApplyOp(old(registry.files), Remove(bound.peer, AuthorityOf(bound)))
      ensures r.Ok? ==> && r.value == bound && sockets == old(sockets) && View() == Registered(before, bound, handler)
                        && registry.files == Published(old(registry.files), bound, now)
    {
      if fault == Some(AtSelector) || shutDown {
        RollBackEarly(bound, l, before);
        return Err(AtSelector);
      }
      Admit(bound, handler, l);
      r := Publish(bound, handler, l, fault, now, before);
    }

    /** Reclaim a stale file, then bind. */
    method Open(path: string, uid: int, inode: int, fails: bool) returns (l: Option<Listener>)
      modifies this`sockets, this`openFds, this`nextFd
      ensures l.Some? <==> !fails && !Bound(old(sockets), old(openFds), path)
      ensures l.Some? ==> && l.value == Listener(old(nextFd), path) && View() == Opened(old(View()))
                          && sockets == old(sockets)[path := Node(uid, inode, old(nextFd))]
      ensures l.None? ==> View() == old(View()) && sockets == old(sockets) - {path}
    {
      ghost var before := sockets;
      ReclaimStaleSocket(path);
      l := BindListener(path, uid, inode, fails);
      assert (before - {path})[path := Node(uid, inode, old(nextFd))] == before[path := Node(uid, inode, old(nextFd))];
      assert (before - {path}) - {path} == before - {path};
    }

    /** Bind, select, file, start, publish. */
    method Attempt(record: PeerRecord, handler: nat, uid: int, inode: int, statFails: bool, fault: Option<Point>,
            now: string)
      returns (r: Result<PeerRecord, Point>)
      requires Valid() && now != ""
      modifies this, registry
      ensures registry.Valid()
      ensures r.Err? <==> Fails(fault, old(running), old(shutDown),
                                Bound(old(sockets), old(openFds), pathFor(record.peer, record.instance)))
      ensures r.Err? ==> && sockets == old(sockets) - {pathFor(record.peer, record.instance)} && old(nextFd) <= nextFd
                         && View() == RolledBack(old(View()), record.peer, r.error in {AtThread, AtPublish}, nextFd)
                         && (record.peer !in old(registry.files) ==> registry.files == old(registry.files))
      ensures r.Ok? ==> && r.value == BoundRecord(record, pathFor(record.peer, record.instance), Stat(statFails, uid, inode))
                        && sockets == old(sockets)[r.value.socketPath := Node(uid, inode, old(nextFd))]
                        && View() == Registered(old(View()), r.value, handler)
                        && registry.files == Published(old(registry.files), r.value, now)
    {
      ghost var before := View();
      var path := pathFor(record.peer, record.instance);
      var l := Open(path, uid, inode, fault == Some(AtBind));
      if l.None? {
        RollBackUnbound(record);
        return Err(AtBind);
      }
      UpdateRemove(old(sockets), path, Node(uid, inode, old(nextFd)));
      r := Proceed(record, path, Stat(statFails, uid, inode), handler, l.value, fault, now, before);
    }

    /** Put what the bind found into the record, and go on with it. */
    method Proceed(record: PeerRecord, path: string, owner: Option<(int, int)>, handler: nat, l: Listener, fault: Option<Point>,
            now: string, ghost before: Maps)
      returns (r: Result<PeerRecord, Point>)
      requires registry.Valid() && now != "" && Coherent(before)
      requires View() == Opened(before) && l == Listener(before.nextFd, path)
      modifies this, registry
      ensures registry.Valid()
      ensures r.Err? <==> || fault in {Some(AtSelector), Some(AtPublish)} || before.shutDown
                          || (fault == Some(AtThread) && !before.running)
      ensures r.Err? ==> && sockets == old(sockets) - {path} && nextFd == before.nextFd + 1
                         && View() == RolledBack(before, record.peer, r.error in {AtThread, AtPublish}, nextFd)
                         && (record.peer !in old(registry.files) ==> registry.files == old(registry.files))
      ensures r.Ok? ==> && r.value == BoundRecord(record, path, owner) && sockets == old(sockets)
                        && View() == Registered(before, r.value, handler)
                        && registry.files == Published(old(registry.files), r.value, now)
    {
      var bound := BoundRecord(record, path, owner);
      AbsentIsKept(registry.files, bound);
      r := Complete(bound, handler, l, fault, now, before);
    }

    /** `statFails` and `fault` are the environment's choices.  A registration either goes through, or
        leaves the socket path empty and, for an id not registered before, everything else as it was. */
    method RegisterPeer(record: PeerRecord, handler: nat, uid: int, inode: int, statFails: bool,
            fault: Option<Point>, now: string)
      returns (r: Result<PeerRecord, Point>)
      requires Valid() && now != ""
      modifies this, registry
      ensures registry.Valid() && (Valid() <==> record.peer !in old(peers))
      ensures r.Err? <==> var path := pathFor(record.peer, record.instance);
                          || old(shutDown) || fault in {Some(AtBind), Some(AtSelector), Some(AtPublish)}
                          || (fault == Some(AtThread) && !old(running))
                          || (path in old(sockets) && old(sockets)[path].fd in old(openFds))
      ensures r.Err? ==> sockets == old(sockets) - {pathFor(record.peer, record.instance)}
      ensures r.Err? ==> (View() == old(View()).(nextFd := nextFd) <==> record.peer !in old(peers))
      ensures r.Err? && record.peer !in old(registry.files) ==> registry.files == old(registry.files)
      ensures r.Ok? ==> && peers == old(peers)[record.peer := r.value] && handlers == old(handlers)[record.peer := handler]
                        && listeners == old(listeners)[record.peer := Listener(old(nextFd), r.value.socketPath)]
      ensures r.Ok? ==> Announced(record, pathFor(record.peer, record.instance), uid, inode, statFails, r.value)
      ensures r.Ok? && r.value.socketPath != "" ==> (OwnsSocket(sockets, r.value) <==> !statFails)
      ensures r.Ok? ==> && r.value == BoundRecord(record, pathFor(record.peer, record.instance), Stat(statFails, uid, inode))
                        && sockets == old(sockets)[r.value.socketPath := Node(uid, inode, old(nextFd))]
                        && View() == Registered(old(View()), r.value, handler)
                        && registry.files == Published(old(registry.files), r.value, now)
    {
      ghost var before := View();
      r := Attempt(record, handler, uid, inode, statFails, fault, now);
      if r.Ok? {
        RegisteredCoherentIff(before, r.value, handler);
      } else {
        RolledBackRestoresIff(before, record.peer, r.error in {AtThread, AtPublish}, nextFd);
      }
    }

    /** Metadata of a registered peer is replaced only by a record with the same bound authority. */
    method UpdateRecord(record: PeerRecord) returns (ok: bool)
      requires Valid()
      modifies this`peers
      ensures Valid()
      ensures ok <==> record.peer in old(peers) && AuthorityOf(old(peers)[record.peer]) == AuthorityOf(record)
      ensures peers == if ok then old(peers)[record.peer := record] else old(peers)
    {
      if record.peer !in peers || AuthorityOf(peers[record.peer]) != AuthorityOf(record) {
        return false;
      }
      peers := peers[record.peer := record];
      return true;
    }

    /** A connection from the wrong user, or on a listener nobody owns, is closed at once. */
    method Accept(l: Listener, conn: nat, authenticated: bool)
      requires Valid() && conn !in connections
      modifies this`connections
      ensures Valid()
      ensures connections == if authenticated && l in owners then old(connections)[conn := owners[l]] else old(connections)
    {
      if authenticated && l in owners {
        assert ListedAt(listeners, owners, l);
        connections := connections[conn := owners[l]];
      }
    }

    method DropConnection(conn: nat)
      modifies this`connections
      ensures connections == old(connections) - {conn}
    {
      connections := connections - {conn};
    }

    /** The loop over the accepted connections. */
    method DropConnectionsOf(id: string)
      modifies this`connections
      ensures connections == Others(old(connections), id)
    {
      ghost var before := connections;
      var rest := connections.Keys;
      while rest != {}
        invariant rest <= before.Keys
        invariant connections == map c | c in before && (before[c] != id || c in rest) :: before[c]
        decreases |rest|
      {
        var c :| c in rest;
        rest := rest - {c};
        if connections[c] == id {
          DropConnection(c);
        }
      }
    }

    /** Close the descriptor only. */
    method Detach(l: Listener)
      modifies this`selected, this`openFds
      ensures selected == old(selected) - {l} && openFds == old(openFds) - {l.fd}
    {
      selected, openFds := selected - {l}, openFds - {l.fd};
    }

    /** The file is unlinked only while its owner and inode are the recorded ones. */
    method UnlinkOwned(r: PeerRecord)
      modifies this`sockets
      ensures sockets == if OwnsSocket(old(sockets), r) then old(sockets) - {r.socketPath} else old(sockets)
    {
      if OwnsSocket(sockets, r) {
        sockets := sockets - {r.socketPath};
      }
    }

    /** The listener is unselected and closed, and its connections with it. */
    method TearDown(id: string)
      modifies this`peers, this`handlers, this`listeners, this`owners, this`connections, this`selected, this`openFds
      ensures View() == Unregistered(old(View()), id).(running := running)
    {
      var listener := if id in listeners then Some(listeners[id]) else None;
      Forget(id);
      if listener.Some? {
        Detach(listener.value);
      }
      DropConnectionsOf(id);
    }

    /** The steps of a teardown. */
    method Withdraw(id: string, now: string)
      requires registry.Valid() && now != ""
      requires id in peers ==> peers[id].peer == id
      modifies this, registry
      ensures registry.Valid() && View() == Unregistered(old(View()), id)
      ensures sockets == if id in old(peers) then WithoutOwned(old(sockets), old(peers)[id]) else old(sockets)
      ensures registry.files == if id in old(peers) then Withdrawn(old(registry.files), id, AuthorityOf(old(peers)[id]), now)
                                else old(registry.files)
    {
      var record := if id in peers then Some(peers[id]) else None;
      if record.Some? {
        var _ := registry.UpdatePresence(id, Closing, None, record, now);
        ClosingThenRemoveIff(old(registry.files), id, AuthorityOf(record.value), now);
      }
      TearDown(id);
      if record.Some? {
        UnlinkOwned(record.value);
        var _ := registry.UnregisterIfCurrent(id, AuthorityOf(record.value));
      }
      StopIfIdle();
    }

    /** A known peer's socket file and registry record go only while they are still its own; an
        unknown id changes nothing. */
    method UnregisterPeer(id: string, now: string)
      requires Valid() && now != ""
      modifies this, registry
      ensures Valid() && View() == Unregistered(old(View()), id)
      ensures peers == old(peers) - {id} && handlers == old(handlers) - {id} && listeners == old(listeners) - {id}
      ensures forall c :: c in connections <==> c in old(connections) && old(connections)[c] != id
      ensures forall path <- sockets :: path in old(sockets) && sockets[path] == old(sockets)[path]
      ensures forall path <- old(sockets) :: path !in sockets <==>
                && id in old(peers) && path != "" && path == old(peers)[id].socketPath
                && old(peers)[id].socketUid == Some(old(sockets)[path].uid)
                && old(peers)[id].socketInode == Some(old(sockets)[path].inode)
      ensures sockets == if id in old(peers) then WithoutOwned(old(sockets), old(peers)[id]) else old(sockets)
      ensures registry.files == if id in old(peers) then Withdrawn(old(registry.files), id, AuthorityOf(old(peers)[id]), now)
                                else old(registry.files)
    {
      UnregisteredCoherent(View(), id);
      Withdraw(id, now);
    }

    /** Tear every peer down; a second call does nothing.  Only owned socket files disappear, and only
        record files that still carry their peer's authority change. */
    method Shutdown(now: string)
      requires Valid() && now != ""
      modifies this, registry
      ensures Valid() && shutDown && peers == map[] && connections == map[] && !running && selected == {}
      ensures old(shutDown) ==> View() == old(View()) && sockets == old(sockets) && registry.files == old(registry.files)
      ensures UnlinkedByOwners(old(sockets), sockets, old(peers))
      ensures registry.files == Retired(old(registry.files), old(peers), map[], now)
    {
      EmptyIsIdle(View());
      if shutDown {
        NothingRetired(registry.files, peers, now);
        return;
      }
      UnregisterAll(now);
      EmptyIsIdle(View());
      running := false;
      shutDown := true;
    }

    method UnregisterAll(now: string)
      requires Valid() && now != "" && !shutDown
      modifies this, registry
      ensures Valid() && peers == map[]
      ensures UnlinkedByOwners(old(sockets), sockets, old(peers))
      ensures registry.files == Retired(old(registry.files), old(peers), map[], now)
    {
      ghost var sockets0, peers0, files0 := sockets, peers, registry.files;
      NothingRetired(files0, peers0, now);
      while peers != map[]
        invariant Valid() && Remains(peers0, peers) && UnlinkedByOwners(sockets0, sockets, peers0)
        invariant registry.files == Retired(files0, peers0, peers, now)
        decreases peers.Keys
      {
        var id :| id in peers;
        UnlinkStep(sockets0, sockets, peers0, peers, id);
        RetireStep(files0, peers0, peers, id, now);
        UnregisterPeer(id, now);
      }
    }
  }
}
