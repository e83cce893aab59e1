/** The message table: claim, transition, the pending count, and batched retention. */
module Store {
  import opened Models

  /** Timestamps are microsecond counts; the table compares their ISO texts, which sort the same way. */
  datatype Row = Row(recipient: string, sender: string, content: string, state: ReceiptState,
                     createdAt: int, hopCount: int, deliveredAt: Option<int>)

  type Table = map<string, Row>

  predicate IsPending(s: ReceiptState) { s == Queued || s == Held }

  /** The ids of a recipient's queued and held messages. */
  function Pending(rows: Table, recipient: string): set<string> {
    set id | id in rows && rows[id].recipient == recipient && IsPending(rows[id].state)
  }

  predicate CountsFor(row: Row, recipient: string) { row.recipient == recipient && IsPending(row.state) }

  /** Queued and held messages of the recipient wait; all others do not. */
  lemma PendingMeans(rows: Table, recipient: string)
    ensures forall id :: id in Pending(rows, recipient) <==>
                         id in rows && rows[id].recipient == recipient && rows[id].state in {Queued, Held}
  {
  }

  /** Writing one row moves a recipient's pending count by what that row counts, less what it counted. */
  lemma PendingCountAfterWrite(rows: Table, id: string, row: Row, recipient: string)
    ensures |Pending(rows[id := row], recipient)| ==
            |Pending(rows, recipient)| + (if row.recipient == recipient && row.state in {Queued, Held} then 1 else 0)
            - (if id in rows && rows[id].recipient == recipient && rows[id].state in {Queued, Held} then 1 else 0)
  {
    var before, after := Pending(rows, recipient), Pending(rows[id := row], recipient);
    assert after == if CountsFor(row, recipient) then before + {id} else before - {id};
    assert id in before <==> id in rows && CountsFor(rows[id], recipient);
  }

  // ---------------------------------------------------------------------------
  // One-shot retention
  // ---------------------------------------------------------------------------

  function Older(rows: Table, cutoff: int): set<string> {
    set id | id in rows && rows[id].createdAt < cutoff
  }

  function Survivors(young: nat, cap: int): nat {
    if cap < 0 then 0 else if young < cap then young else cap
  }

  /** What retention must leave of `before`: nothing older than the cutoff, as many young rows as
      the cap allows, and never a deleted row newer than a surviving one. */
  ghost predicate IsRetention(before: Table, after: Table, cutoff: int, cap: int) {
    && after.Keys <= before.Keys
    && (forall id <- after :: after[id] == before[id])
    && Older(after, cutoff) == {}
    && |after| == Survivors(|before.Keys - Older(before, cutoff)|, cap)
    && (forall gone, kept :: gone in before && gone !in after && kept in after ==>
          before[gone].createdAt <= before[kept].createdAt)
  }

  /** The young rows of `before`. */
  function Young(before: Table, cutoff: int): set<string> { set id | id in before && before[id].createdAt >= cutoff }

  /** The same row by row: survivors are young and unchanged; they are all the young ones if the cap allows
      it, and else as many as it does, and none that is gone is younger. */
  ghost predicate Retained(before: Table, after: Table, cutoff: int, cap: int) {
    && (forall id <- after :: id in before && after[id] == before[id] && before[id].createdAt >= cutoff)
    && (|Young(before, cutoff)| <= cap ==> forall id <- before :: before[id].createdAt >= cutoff ==> id in after)
    && (|Young(before, cutoff)| > cap ==> |after| == if cap < 0 then 0 else cap)
    && (forall gone, kept :: gone in before && gone !in after && kept in after ==> before[gone].createdAt <= before[kept].createdAt)
  }

  lemma RetentionRetains(before: Table, after: Table, cutoff: int, cap: int)
    requires IsRetention(before, after, cutoff, cap)
    ensures Retained(before, after, cutoff, cap)
  {
    assert Young(before, cutoff) == before.Keys - Older(before, cutoff);
    forall id | id in after ensures before[id].createdAt >= cutoff {
      assert id !in Older(after, cutoff);
    }
    SubsetCardinality(after.Keys, Young(before, cutoff));
    assert |after.Keys| == |after|;
  }

  ghost predicate DistinctTimes(rows: Table) {
    forall x, y :: x in rows && y in rows && rows[x].createdAt == rows[y].createdAt ==> x == y
  }

  function Newer(rows: Table, id: string): set<string>
    requires id in rows
  {
    set z | z in rows && rows[z].createdAt > rows[id].createdAt
  }

  /** Without equal timestamps a young row survives exactly when the rows newer than it leave room. */
  lemma SurvivesIff(before: Table, after: Table, cutoff: int, cap: int, id: string)
    requires IsRetention(before, after, cutoff, cap) && DistinctTimes(before)
    requires id in before && before[id].createdAt >= cutoff
    ensures id in after <==> |Newer(before, id)| < Survivors(|before.Keys - Older(before, cutoff)|, cap)
  {
    assert |after| == |after.Keys|;
    if id in after {
      SubsetCardinality(Newer(before, id), after.Keys - {id});
    } else {
      SubsetCardinality(after.Keys, Newer(before, id));
    }
  }

  /** Then the table and the limits decide what survives. */
  lemma RetentionIsUnique(before: Table, a: Table, b: Table, cutoff: int, cap: int)
    requires IsRetention(before, a, cutoff, cap) && IsRetention(before, b, cutoff, cap) && DistinctTimes(before)
    ensures a == b
  {
    forall id | id in before ensures id in a <==> id in b {
      if before[id].createdAt >= cutoff {
        SurvivesIff(before, a, cutoff, cap, id);
        SurvivesIff(before, b, cutoff, cap, id);
      } else {
        assert id in a ==> id in Older(a, cutoff);
        assert id in b ==> id in Older(b, cutoff);
      }
    }
  }

  lemma SubsetCardinality<T>(a: set<T>, b: set<T>)
    requires a <= b
    ensures |a| <= |b| && (|a| == |b| ==> a == b) && |b - a| == |b| - |a|
  {
    assert b == a + (b - a);
  }

  /** Retaining again with the same limits deletes nothing. */
  lemma RetentionIsIdempotent(before: Table, after: Table, again: Table, cutoff: int, cap: int)
    requires IsRetention(before, after, cutoff, cap) && IsRetention(after, again, cutoff, cap)
    ensures again == after
  {
    assert after.Keys - Older(after, cutoff) == after.Keys;
    SubsetCardinality(again.Keys, after.Keys);
    assert |after.Keys| == |after|;
    assert |again.Keys| == |again|;
  }

  // ---------------------------------------------------------------------------
  // The store
  // ---------------------------------------------------------------------------

  /** No row of `rest` is older than one of `ids`. */
  ghost predicate NoneOlder(rows: Table, ids: set<string>, rest: set<string>)
    requires ids <= rows.Keys && rest <= rows.Keys
  {
    forall a, b :: a in ids && b in rest ==> rows[a].createdAt <= rows[b].createdAt
  }

  lemma NoneOlderStep(rows: Table, ids: set<string>, rest: set<string>, id: string)
    requires ids <= rows.Keys && rest <= rows.Keys && NoneOlder(rows, ids, rest)
    requires id in rest && forall x <- rest :: rows[id].createdAt <= rows[x].createdAt
    ensures NoneOlder(rows, ids + {id}, rest - {id})
  {
  }

  lemma OldestExists(rows: Table, ids: set<string>) returns (oldest: string)
    requires ids != {} && ids <= rows.Keys
    ensures oldest in ids && forall id <- ids :: rows[oldest].createdAt <= rows[id].createdAt
    decreases |ids|
  {
    var one :| one in ids;
    var rest := ids - {one};
    assert ids == rest + {one};
    if rest == {} {
      oldest := one;
    } else {
      var candidate := OldestExists(rows, rest);
      oldest := if rows[one].createdAt <= rows[candidate].createdAt then one else candidate;
    }
  }

  class MessageStore {
    var rows: Table

    constructor ()
      ensures rows == map[]
    {
      rows := map[];
    }

    /** Insert the row unless the id exists; the existing row is returned and left alone. */
    method Claim(id: string, row: Row) returns (existing: Option<Row>, created: bool)
      modifies this
      ensures created <==> id !in old(rows)
      ensures created ==> existing == None && rows == old(rows)[id := row]
      ensures !created ==> existing == Some(old(rows)[id]) && rows == old(rows)
    {
      if id in rows {
        return Some(rows[id]), false;
      }
      rows := rows[id := row];
      return None, true;
    }

    method Transition(id: string, state: ReceiptState, now: int) returns (ok: bool)
      modifies this
      ensures ok <==> id in old(rows)
      ensures rows == if ok then old(rows)[id := old(rows)[id].(state := state, deliveredAt := Some(now))] else old(rows)
    {
      if id !in rows {
        return false;
      }
      rows := rows[id := rows[id].(state := state, deliveredAt := Some(now))];
      return true;
    }

    method BlankContent(id: string)
      modifies this
      ensures rows == if id in old(rows) then old(rows)[id := old(rows)[id].(content := "")] else old(rows)
    {
      if id in rows {
        rows := rows[id := rows[id].(content := "")];
      }
    }

    method CountPending(recipient: string) returns (n: nat)
      ensures n == |Pending(rows, recipient)|
    {
      n := |Pending(rows, recipient)|;
    }

    /** `SELECT ... WHERE created_at < cutoff LIMIT limit`: any of the old rows, up to the limit. */
    method SelectOlder(cutoff: int, limit: nat) returns (ids: set<string>)
      ensures ids <= Older(rows, cutoff)
      ensures |ids| == if |Older(rows, cutoff)| < limit then |Older(rows, cutoff)| else limit
    {
      var all := Older(rows, cutoff);
      ids := {};
      while |ids| < limit && ids != all
        invariant ids <= all && |ids| <= limit
        decreases |all| - |ids|
      {
        var id :| id in all && id !in ids;
        SubsetCardinality(ids + {id}, all);
        ids := ids + {id};
      }
      SubsetCardinality(ids, all);
    }

    /** `SELECT ... ORDER BY created_at LIMIT limit`: the oldest rows, ties in any order. */
    method SelectOldest(limit: nat) returns (ids: set<string>)
      ensures ids <= rows.Keys
      ensures |ids| == if |rows| < limit then |rows| else limit
      ensures forall a, b :: a in ids && b in rows && b !in ids ==> rows[a].createdAt <= rows[b].createdAt
    {
      ids := {};
      var rest := rows.Keys;
      while |ids| < limit && rest != {}
        invariant rest == rows.Keys - ids && ids <= rows.Keys && |ids| <= limit
        invariant |ids| + |rest| == |rows.Keys|
        invariant NoneOlder(rows, ids, rest)
        decreases |rest|
      {
        ghost var oldest := OldestExists(rows, rest);
        var id :| id in rest && forall x <- rest :: rows[id].createdAt <= rows[x].createdAt;
        NoneOlderStep(rows, ids, rest, id);
        ids := ids + {id};
        rest := rest - {id};
      }
    }

    /** The first loop of `retain`.  With a batch size below one no batch would ever be smaller than
        it, so the loop would not end. */
    method DeleteOlder(cutoff: int, batchSize: nat) returns (removed: nat)
      requires batchSize >= 1
      modifies this
      ensures rows == old(rows) - Older(old(rows), cutoff)
      ensures forall id :: id in rows <==> id in old(rows) && old(rows)[id].createdAt >= cutoff
      ensures removed == |old(rows)| - |rows|
    {
      ghost var before := rows;
      removed := 0;
      while true
        invariant OnlyOlderGone(before, rows, cutoff)
        invariant removed == |before| - |rows|
        decreases |rows|
      {
        ghost var mid := rows;
        var deleted := DeleteBatch(cutoff, batchSize);
        OnlyOlderGoneComposes(before, mid, rows, cutoff);
        removed := removed + deleted;
        if deleted < batchSize {
          break;
        }
      }
      AllOlderGone(before, rows, cutoff);
    }

    /** One batch; one that is not full was the last. */
    method DeleteBatch(cutoff: int, batchSize: nat) returns (deleted: nat)
      modifies this
      ensures OnlyOlderGone(old(rows), rows, cutoff)
      ensures deleted == |old(rows)| - |rows|
      ensures deleted < batchSize ==> Older(rows, cutoff) == {}
    {
      var ids := SelectOlder(cutoff, batchSize);
      RemovalSize(rows, ids);
      SubsetCardinality(ids, Older(rows, cutoff));
      assert rows.Keys - (rows - ids).Keys == ids;
      rows := rows - ids;
      deleted := |ids|;
    }

    /** Old rows first, then the oldest rows over the cap, in batches. */
    method Retain(cutoff: int, maxRows: int, batchSize: nat) returns (removed: nat)
      requires batchSize >= 1
      modifies this
      ensures IsRetention(old(rows), rows, cutoff, maxRows)
      ensures Retained(old(rows), rows, cutoff, maxRows)
      ensures removed == |old(rows)| - |rows|
    {
      ghost var before := rows;
      removed := DeleteOlder(cutoff, batchSize);
      ghost var young := rows;
      while true
        invariant Trimmed(young, rows, maxRows)
        invariant removed == |before| - |rows|
        decreases |rows|
      {
        var over := |rows| - maxRows;
        if over <= 0 {
          break;
        }
        var limit := if over < batchSize then over else batchSize;
        var ids := SelectOldest(limit);
        RemovalSize(rows, ids);
        TrimStep(young, rows, maxRows, ids);
        rows := rows - ids;
        removed := removed + |ids|;
        if |ids| < batchSize {
          break;
        }
      }
      TrimmedIsRetention(before, rows, cutoff, maxRows);
      RetentionRetains(before, rows, cutoff, maxRows);
    }
  }

  /** Rows disappeared, all of them old. */
  ghost predicate OnlyOlderGone(before: Table, after: Table, cutoff: int) {
    && after.Keys <= before.Keys && after == before - (before.Keys - after.Keys)
    && before.Keys - after.Keys <= Older(before, cutoff)
  }

  lemma OnlyOlderGoneComposes(a: Table, b: Table, c: Table, cutoff: int)
    requires OnlyOlderGone(a, b, cutoff) && OnlyOlderGone(b, c, cutoff)
    ensures OnlyOlderGone(a, c, cutoff)
  {
  }

  lemma AllOlderGone(before: Table, after: Table, cutoff: int)
    requires OnlyOlderGone(before, after, cutoff) && Older(after, cutoff) == {}
    ensures after == before - Older(before, cutoff)
  {
    forall id | id in Older(before, cutoff) ensures id !in after {
      assert id in after ==> id in Older(after, cutoff);
    }
    assert before.Keys - after.Keys == Older(before, cutoff);
  }

  lemma RemovalSize(rows: Table, ids: set<string>)
    requires ids <= rows.Keys
    ensures |rows - ids| == |rows| - |ids|
  {
    assert (rows - ids).Keys == rows.Keys - ids;
    SubsetCardinality(ids, rows.Keys);
    assert |(rows - ids).Keys| == |rows - ids| && |rows.Keys| == |rows|;
  }

  /** `rows` is `young` without some of its oldest rows, and still holds all the cap allows. */
  ghost predicate Trimmed(young: Table, rows: Table, cap: int) {
    && rows.Keys <= young.Keys && (forall id <- rows :: rows[id] == young[id])
    && |rows| >= Survivors(|young|, cap)
    && (forall gone, kept :: gone in young && gone !in rows && kept in rows ==>
          young[gone].createdAt <= young[kept].createdAt)
  }

  lemma TrimStep(young: Table, rows: Table, cap: int, ids: set<string>)
    requires Trimmed(young, rows, cap) && ids <= rows.Keys
    requires |ids| <= |rows| - cap
    requires forall a, b :: a in ids && b in rows && b !in ids ==> rows[a].createdAt <= rows[b].createdAt
    ensures Trimmed(young, rows - ids, cap)
  {
    RemovalSize(rows, ids);
  }

  lemma TrimmedIsRetention(before: Table, rows: Table, cutoff: int, cap: int)
    requires Trimmed(before - Older(before, cutoff), rows, cap)
    requires |rows| <= cap || |rows| == 0
    ensures IsRetention(before, rows, cutoff, cap)
  {
    var young := before - Older(before, cutoff);
    assert young.Keys == before.Keys - Older(before, cutoff);
    assert |young| == |young.Keys| && |rows| == |rows.Keys|;
    SubsetCardinality(rows.Keys, young.Keys);
    assert Older(rows, cutoff) == {};
  }
}
