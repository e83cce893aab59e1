/** The owner-local registry: one record file per peer, updates fenced by the bound authority, and the
    ceiling beyond which a file that was written can no longer be read. */
module Registries {
  import opened Models
  import opened JsonTexts

  datatype Presence = Idle | Working | HeldBack | Closing

  function StatusText(p: Presence): string {
    match p
    case Idle => "idle"
    case Working => "working"
    case HeldBack => "held"
    case Closing => "closing"
  }

  lemma StatusTexts(p: Presence)
    ensures StatusText(p) == "idle" <==> p == Idle
    ensures StatusText(p) == "working" <==> p == Working
    ensures StatusText(p) == "held" <==> p == HeldBack
    ensures StatusText(p) == "closing" <==> p == Closing
  {
  }

  /** Is the `primary` flag advertised as true?  `text` is the JSON text of all the flags. */
  datatype Capabilities = Capabilities(primary: bool, text: string)

  /** Where and when the session runs. */
  datatype Context = Context(pid: int, cwd: string, repository: string, branch: string, startedAt: string)

  datatype PeerRecord = PeerRecord(
    peer: string, instance: string, session: string, name: string, profile: string, agent: string,
    protocols: seq<string>, capabilities: Capabilities, surface: string, target: string, context: Context, lastSeen: string,
    status: Presence, activity: string, socketPath: string, socketUid: Option<int>, socketInode: Option<int>,
    protocol: string)

  type Records = map<string, PeerRecord>

  /** The bound authority of a record. */
  datatype Authority = Authority(instance: string, socketPath: string, socketUid: Option<int>, socketInode: Option<int>)

  function AuthorityOf(r: PeerRecord): Authority {
    Authority(r.instance, r.socketPath, r.socketUid, r.socketInode)
  }

  // ---------------------------------------------------------------------------
  // Files
  // ---------------------------------------------------------------------------

  /** More bytes than this are written, but not read. */
  const MAX_FILE_BYTES := 65_536

  /** The members of a record's file in the order of their keys. */
  const FILE_KEYS: seq<string> :=
    ["agent_id", "capabilities", "current_activity", "cwd", "git_branch", "git_repo_root", "host_target", "instance_id",
     "last_seen", "name", "peer_id", "pid", "profile", "protocol", "protocols", "session_id", "socket_inode",
     "socket_path", "socket_uid", "started_at", "status", "surface"]

  function FileValues(r: PeerRecord): seq<Value> {
    [OfText(r.agent), Verbatim(r.capabilities.text), OfText(r.activity), OfText(r.context.cwd), OfText(r.context.branch),
     OfText(r.context.repository), OfText(r.target), OfText(r.instance), OfText(r.lastSeen), OfText(r.name), OfText(r.peer),
     OfNumber(Some(r.context.pid)), OfText(r.profile), OfText(r.protocol), OfList(r.protocols), OfText(r.session),
     OfNumber(r.socketInode), OfText(r.socketPath), OfNumber(r.socketUid), OfText(r.context.startedAt),
     OfText(StatusText(r.status)), OfText(r.surface)]
  }

  function FileText(r: PeerRecord): string { ObjectText(FILE_KEYS, FileValues(r)) }

  /** Braces, keys, colons and commas of the file. */
  const FILE_FRAME := 286

  /** How many bytes the file of a record has: its text is ASCII. */
  function FileSize(r: PeerRecord): nat { FILE_FRAME + ValueSizes(FileValues(r)) }

  lemma KeysOfFile()
    ensures KeySizes(FILE_KEYS) == FILE_FRAME - 1
  {
    var a := ["agent_id", "capabilities", "current_activity", "cwd", "git_branch", "git_repo_root", "host_target"];
    var b := ["instance_id", "last_seen", "name", "peer_id", "pid", "profile", "protocol", "protocols"];
    var c := ["session_id", "socket_inode", "socket_path", "socket_uid", "started_at", "status", "surface"];
    assert FILE_KEYS == a + (b + c);
    KeySizesAppend(a, b + c);
    KeySizesAppend(b, c);
    FirstKeys();
    MiddleKeys();
    LastKeys();
  }

  lemma FirstKeys()
    ensures KeySizes(["agent_id", "capabilities", "current_activity", "cwd", "git_branch", "git_repo_root", "host_target"]) == 101
  {
  }

  lemma MiddleKeys()
    ensures KeySizes(["instance_id", "last_seen", "name", "peer_id", "pid", "profile", "protocol", "protocols"]) == 90
  {
  }

  lemma LastKeys()
    ensures KeySizes(["session_id", "socket_inode", "socket_path", "socket_uid", "started_at", "status", "surface"]) == 94
  {
  }

  lemma FileSizeIsExact(r: PeerRecord)
    ensures |FileText(r)| == FileSize(r)
  {
    SizeOfObject(FILE_KEYS, FileValues(r));
    KeysOfFile();
  }

  /** The file of the record is within the ceiling. */
  predicate Readable(r: PeerRecord) { FileSize(r) <= MAX_FILE_BYTES }

  /** In bytes of the text. */
  lemma ReadableMeans(r: PeerRecord)
    ensures Readable(r) <==> |FileText(r)| <= 65_536
  {
    FileSizeIsExact(r);
  }

  /** A file parses, or is skipped: over the ceiling, or corrupt. */
  datatype File = Parsed(record: PeerRecord) | Unreadable

  /** The file that writing a record leaves behind. */
  function Written(r: PeerRecord): File { if Readable(r) then Parsed(r) else Unreadable }

  type Files = map<string, File>

  function Get(files: Files, peer: string): Option<PeerRecord> {
    if peer in files && files[peer].Parsed? then Some(files[peer].record) else None
  }

  /** The registry fills in both stamps before it writes. */
  predicate Stamped(r: PeerRecord) { r.lastSeen != "" && r.context.startedAt != "" }

  /** Every readable file is named after the peer it describes and is stamped, as the registry writes them. */
  ghost predicate Named(files: Files) {
    forall peer <- files :: NamedAt(files, peer)
  }

  ghost predicate NamedAt(files: Files, peer: string) {
    Get(files, peer).Some? ==> Get(files, peer).value.peer == peer && Stamped(Get(files, peer).value)
  }

  predicate Matches(files: Files, peer: string, expected: Authority) {
    Get(files, peer).Some? && AuthorityOf(Get(files, peer).value) == expected
  }

  /** The fence compares instance, path, owner and inode. */
  lemma MatchesMeans(files: Files, peer: string, r: PeerRecord)
    ensures Matches(files, peer, AuthorityOf(r)) <==>
            && peer in files && files[peer].Parsed?
            && var on := files[peer].record;
            on.instance == r.instance && on.socketPath == r.socketPath && on.socketUid == r.socketUid && on.socketInode == r.socketInode
  {
  }

  /** What an update may touch; absent means unchanged. */
  datatype Change = Change(name: Option<string>, status: Option<Presence>, activity: Option<string>, seen: Option<string>)

  function Or<T>(o: Option<T>, t: T): T { if o.Some? then o.value else t }

  function Updated(r: PeerRecord, c: Change): PeerRecord {
    r.(name := Or(c.name, r.name), status := Or(c.status, r.status), activity := Or(c.activity, r.activity),
       lastSeen := Or(c.seen, r.lastSeen))
  }

  /** Name, status, note and last sighting are as asked or as before; everything else is as before. */
  ghost predicate ChangedAsAsked(before: PeerRecord, after: PeerRecord, c: Change) {
    && after.name == (if c.name == None then before.name else c.name.value)
    && after.status == (if c.status == None then before.status else c.status.value)
    && after.activity == (if c.activity == None then before.activity else c.activity.value)
    && after.lastSeen == (if c.seen == None then before.lastSeen else c.seen.value)
    && SameIdentity(before, after)
  }

  /** The two records differ at most in name, status, activity and last sighting. */
  predicate SameIdentity(a: PeerRecord, b: PeerRecord) {
    b == a.(name := b.name, status := b.status, activity := b.activity, lastSeen := b.lastSeen)
  }

  // ---------------------------------------------------------------------------
  // Fenced operations over whole runs
  // ---------------------------------------------------------------------------

  datatype FencedOp = Update(peer: string, expected: Authority, change: Change) | Remove(peer: string, expected: Authority)

  function ApplyOp(files: Files, op: FencedOp): Files {
    if !Matches(files, op.peer, op.expected) then files
    else match op
      case Update(peer, _, change) => files[peer := Written(Updated(Get(files, peer).value, change))]
      case Remove(peer, _) => files - {peer}
  }

  function ApplyAll(files: Files, ops: seq<FencedOp>): Files {
    if ops == [] then files else ApplyAll(ApplyOp(files, ops[0]), ops[1..])
  }

  /** Whatever a run of writers carrying other authorities does, the record stays as it was. */
  lemma {:induction false} ForeignWritersChangeNothing(files: Files, ops: seq<FencedOp>, peer: string)
    requires peer in files
    requires forall op <- ops :: op.peer == peer ==> !Matches(files, peer, op.expected)
    ensures peer in ApplyAll(files, ops) && ApplyAll(files, ops)[peer] == files[peer]
  {
    if ops != [] {
      assert ops[0] in ops;
      var next := ApplyOp(files, ops[0]);
      assert peer in next && next[peer] == files[peer];
      ForeignWritersChangeNothing(next, ops[1..], peer);
    }
  }

  /** Through any run of fenced writers no file appears, and a record that can still be read has its
      identity, session and bound authority; a file was changed only by writers that carried it. */
  lemma {:induction false} WritersKeepIdentity(files: Files, ops: seq<FencedOp>, peer: string)
    requires peer in ApplyAll(files, ops)
    ensures peer in files
    ensures ApplyAll(files, ops)[peer].Parsed? ==>
              files[peer].Parsed? && SameIdentity(files[peer].record, ApplyAll(files, ops)[peer].record)
    ensures ApplyAll(files, ops)[peer] != files[peer] ==>
              && files[peer].Parsed?
              && exists op <- ops :: op.Update? && op.peer == peer && op.expected == AuthorityOf(files[peer].record)
  {
    if ops != [] {
      var next := ApplyOp(files, ops[0]);
      WritersKeepIdentity(next, ops[1..], peer);
      assert ops[0] in ops;
      assert forall op <- ops[1..] :: op in ops;
    }
  }

  /** A file that cannot be read is out of every fenced writer's reach: none changes or removes it. */
  lemma UnreadableIsFinal(files: Files, ops: seq<FencedOp>, peer: string)
    requires peer in files && files[peer].Unreadable?
    ensures peer in ApplyAll(files, ops) && ApplyAll(files, ops)[peer].Unreadable?
  {
    ForeignWritersChangeNothing(files, ops, peer);
  }

  /** The records that the updates carrying the authority of `r` ask to be written, one after another. */
  function Successors(r: PeerRecord, ops: seq<FencedOp>): seq<PeerRecord>
    decreases |ops|
  {
    if ops == [] then []
    else if ops[0].Update? && ops[0].peer == r.peer && ops[0].expected == AuthorityOf(r) then
      var u := Updated(r, ops[0].change);
      [u] + Successors(u, ops[1..])
    else Successors(r, ops[1..])
  }

  /** What writing the records `us` over a file of `r` comes to, if nothing is written once the file can no
      longer be read. */
  function Outcome(r: PeerRecord, us: seq<PeerRecord>): File
    decreases |us|
  {
    if us == [] then Parsed(r) else if Readable(us[0]) then Outcome(us[0], us[1..]) else Unreadable
  }

  /** Until its own authority removes it, a file is what its successors make of it, whoever else writes. */
  lemma {:induction false} SuccessorsDecide(files: Files, ops: seq<FencedOp>, r: PeerRecord)
    requires r.peer in files && files[r.peer] == Parsed(r)
    requires forall op <- ops :: op.Remove? && op.peer == r.peer ==> op.expected != AuthorityOf(r)
    ensures r.peer in ApplyAll(files, ops) && ApplyAll(files, ops)[r.peer] == Outcome(r, Successors(r, ops))
    decreases |ops|
  {
    if ops != [] {
      assert ops[0] in ops && forall op <- ops[1..] :: op in ops;
      var next := ApplyOp(files, ops[0]);
      if ops[0].Update? && ops[0].peer == r.peer && ops[0].expected == AuthorityOf(r) {
        var u := Updated(r, ops[0].change);
        OutcomeOfFirst(r, u, Successors(u, ops[1..]));
        if Readable(u) {
          SuccessorsDecide(next, ops[1..], u);
        } else {
          UnreadableIsFinal(next, ops[1..], r.peer);
        }
      } else {
        SuccessorsDecide(next, ops[1..], r);
      }
    }
  }

  lemma OutcomeOfFirst(r: PeerRecord, u: PeerRecord, us: seq<PeerRecord>)
    ensures Outcome(r, [u] + us) == if Readable(u) then Outcome(u, us) else Unreadable
  {
    assert ([u] + us)[1..] == us;
  }

  /** So it can still be read exactly if every one of them was within the ceiling. */
  lemma {:induction false} StaysReadableIff(r: PeerRecord, us: seq<PeerRecord>)
    ensures Outcome(r, us).Parsed? <==> forall u <- us :: Readable(u)
    ensures Outcome(r, us).Parsed? && us != [] ==> Outcome(r, us) == Parsed(us[|us| - 1])
    decreases |us|
  {
    if us != [] {
      StaysReadableIff(us[0], us[1..]);
      assert forall u :: u in us <==> u == us[0] || u in us[1..];
    }
  }

  // ---------------------------------------------------------------------------
  // Which records can be read
  // ---------------------------------------------------------------------------

  /** A long note is over the ceiling. */
  lemma LongNoteIsUnreadable(r: PeerRecord)
    requires |r.activity| >= MAX_FILE_BYTES
    ensures !Readable(r)
  {
    ValueIsNoLonger(FileValues(r), 2);
  }

  /** So is a session id of half the ceiling, which the file holds twice. */
  lemma LongSessionIsUnreadable(r: PeerRecord)
    requires 2 * |r.session| >= MAX_FILE_BYTES && |r.target| >= |r.session|
    ensures !Readable(r)
  {
    TwoTextsAreNoLonger(FileValues(r), 6, 15, r.target, r.session);
  }

  /** Capabilities of up to 40,000 bytes fit, with 1,000 bytes for each of the other values. */
  lemma LargeCapabilitiesAreReadable(r: PeerRecord)
    requires |r.capabilities.text| <= 40_000
    requires forall i :: 0 <= i < 22 && i != 1 ==> ValueSize(FileValues(r)[i]) <= 1_000
    ensures Readable(r)
  {
    OneLargeValueFits(FileValues(r), 1, 1_000);
  }

  /** What is written: an empty stamp becomes `now`. */
  function Stored(r: PeerRecord, now: string): PeerRecord {
    r.(lastSeen := if r.lastSeen == "" then now else r.lastSeen,
       context := r.context.(startedAt := if r.context.startedAt == "" then now else r.context.startedAt))
  }

  function Published(files: Files, r: PeerRecord, now: string): Files { files[r.peer := Written(Stored(r, now))] }

  class Registry {
    var files: Files

    ghost predicate Valid()
      reads this
    {
      Named(files)
    }

    constructor ()
      ensures Valid() && files == map[]
    {
      files := map[];
    }

    /** Write one record. */
    method Register(r: PeerRecord, now: string)
      requires Valid() && now != ""
      modifies this
      ensures Valid()
      ensures files == Published(old(files), r, now)
      ensures r.peer in files && (files[r.peer].Unreadable? || files[r.peer] ==
                Parsed(r.(lastSeen := if r.lastSeen == "" then now else r.lastSeen,
                          context := r.context.(startedAt := if r.context.startedAt == "" then now else r.context.startedAt))))
      ensures forall peer :: peer != r.peer ==> (peer in files <==> peer in old(files)) && (peer in files ==> files[peer] == old(files)[peer])
    {
      NamedAfterWrite(files, Stored(r, now));
      files := files[r.peer := Written(Stored(r, now))];
    }

    method Unregister(peer: string) returns (removed: bool)
      requires Valid()
      modifies this
      ensures Valid() && files == old(files) - {peer} && removed == (peer in old(files))
    {
      NamedAfterRemoval(files, peer);
      removed := peer in files;
      files := files - {peer};
    }

    method UnregisterIfCurrent(peer: string, expected: Authority) returns (removed: bool)
      requires Valid()
      modifies this
      ensures Valid() && removed == Matches(old(files), peer, expected)
      ensures files == ApplyOp(old(files), Remove(peer, expected))
    {
      if !Matches(files, peer, expected) {
        return false;
      }
      removed := Unregister(peer);
    }

    /** `now` is the time written, if any time is.  The updated record is returned even if it can no longer
        be read. */
    method UpdateIfCurrent(peer: string, expected: Authority, change: Change, now: string) returns (r: Option<PeerRecord>)
      requires Valid() && now != "" && change.seen in {None, Some(now)}
      modifies this
      ensures Valid()
      ensures r.Some? <==> Matches(old(files), peer, expected)
      ensures r.Some? ==> r.value == Updated(Get(old(files), peer).value, change) && files == old(files)[peer := Written(r.value)]
      ensures r.Some? ==> peer in old(files) && old(files)[peer].Parsed? && ChangedAsAsked(old(files)[peer].record, r.value, change)
      ensures files == ApplyOp(old(files), Update(peer, expected, change))
    {
      if !Matches(files, peer, expected) {
        return None;
      }
      assert NamedAt(files, peer);
      var updated := Updated(Get(files, peer).value, change);
      Register(updated, now);
      return Some(updated);
    }

    method UpdatePresence(peer: string, status: Presence, activity: Option<string>, expected: Option<PeerRecord>,
            now: string)
      returns (r: Option<PeerRecord>)
      requires Valid() && now != ""
      modifies this
      ensures Valid()
      ensures r.Some? <==>
                Get(old(files), peer).Some? && (expected.Some? ==> Matches(old(files), peer, AuthorityOf(expected.value)))
      ensures r.Some? ==>
                && r.value == Updated(Get(old(files), peer).value, Change(None, Some(status), activity, Some(now)))
                && files == old(files)[peer := Written(r.value)]
      ensures r.None? ==> files == old(files)
    {
      var record := if expected.Some? then expected else Get(files, peer);
      if record.None? {
        return None;
      }
      r := UpdateIfCurrent(peer, AuthorityOf(record.value), Change(None, Some(status), activity, Some(now)), now);
    }

    method Heartbeat(peer: string, expected: Option<PeerRecord>, now: string) returns (r: Option<PeerRecord>)
      requires Valid() && now != ""
      modifies this
      ensures Valid()
      ensures r.Some? <==>
                Get(old(files), peer).Some? && (expected.Some? ==> Matches(old(files), peer, AuthorityOf(expected.value)))
      ensures r.Some? ==>
                && r.value == Get(old(files), peer).value.(lastSeen := now)
                && files == old(files)[peer := Written(r.value)]
      ensures r.None? ==> files == old(files)
    {
      var record := if expected.Some? then expected else Get(files, peer);
      if record.None? {
        return None;
      }
      r := UpdateIfCurrent(peer, AuthorityOf(record.value), Change(None, None, None, Some(now)), now);
    }
  }

  lemma NamedAfterWrite(files: Files, r: PeerRecord)
    requires Named(files) && Stamped(r)
    ensures Named(files[r.peer := Written(r)])
  {
    var after := files[r.peer := Written(r)];
    forall peer <- after ensures NamedAt(after, peer) {
      assert peer in files ==> NamedAt(files, peer);
    }
  }

  lemma NamedAfterRemoval(files: Files, peer: string)
    requires Named(files)
    ensures Named(files - {peer})
  {
    var after := files - {peer};
    forall x <- after ensures NamedAt(after, x) {
      assert NamedAt(files, x);
    }
  }
}
