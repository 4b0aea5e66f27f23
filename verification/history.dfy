/**
 `GET /history/{pid}` and `GET /history`: the sessions whose patient id
 contains `pid`, newest first, each row without its status column.
 */
module History {
  import opened Text
  import opened Sessions

  /** One element of the JSON list the endpoint returns. */
  datatype Row = Row(
    id: string,
    patientId: string,
    transcript: string,
    summary: string,
    audio: string,
    timestamp: int)

  function RowOf(id: string, s: Session): Row {
    Row(id, s.patientId, s.transcript, s.summary, s.audioFile, s.timestamp)
  }

  /** The `WHERE` clause: no filter for an empty `pid`, otherwise
      `patient_id LIKE '%pid%'` read as a plain substring test. */
  predicate Selects(pid: string, s: Session) {
    pid == "" || IsSubstring(pid, s.patientId)
  }

  /** Ids of the rows the query returns. */
  ghost function Selected(store: Store, pid: string): set<string> {
    set id | id in store && Selects(pid, store[id])
  }

  ghost predicate NewestFirst(rows: seq<Row>) {
    forall i, j :: 0 <= i < j < |rows| ==> rows[i].timestamp >= rows[j].timestamp
  }

  ghost function RowIds(rows: seq<Row>): set<string> {
    set i | 0 <= i < |rows| :: rows[i].id
  }

  ghost predicate DistinctIds(rows: seq<Row>) {
    forall i, j :: 0 <= i < j < |rows| ==> rows[i].id != rows[j].id
  }

  /** Each row is the row-image of the session stored under its id. */
  ghost predicate RowsOf(store: Store, rows: seq<Row>) {
    forall i :: 0 <= i < |rows| ==> rows[i].id in store && rows[i] == RowOf(rows[i].id, store[rows[i].id])
  }

  /** Position at which a row stamped `ts` goes in a newest-first list: after
      every strictly newer row, before the rest. */
  function InsertionPoint(rows: seq<Row>, ts: int): (k: nat)
    ensures k <= |rows|
    ensures forall i :: 0 <= i < k ==> rows[i].timestamp > ts
    ensures NewestFirst(rows) ==> forall i :: k <= i < |rows| ==> rows[i].timestamp <= ts
    decreases |rows|
  {
    if |rows| == 0 || rows[0].timestamp <= ts then 0
    else 1 + InsertionPoint(rows[1..], ts)
  }

  /** Inserting a row into a newest-first list keeps it newest first. */
  lemma InsertKeepsOrder(rows: seq<Row>, r: Row)
    requires NewestFirst(rows)
    ensures var k := InsertionPoint(rows, r.timestamp);
              NewestFirst(rows[..k] + [r] + rows[k..])
  {
    var k := InsertionPoint(rows, r.timestamp);
    var out := rows[..k] + [r] + rows[k..];
    forall i, j | 0 <= i < j < |out| ensures out[i].timestamp >= out[j].timestamp {
      if j < k {
        assert out[i] == rows[i] && out[j] == rows[j];
      } else if j == k {
        assert out[i] == rows[i];
      } else if i > k {
        assert out[i] == rows[i - 1] && out[j] == rows[j - 1];
      } else if i == k {
        assert out[j] == rows[j - 1];
      } else {
        assert out[i] == rows[i] && out[j] == rows[j - 1];
      }
    }
  }

  /** The ids after an insertion are the old ids plus the new one. */
  lemma InsertIds(rows: seq<Row>, k: nat, r: Row)
    requires k <= |rows|
    ensures RowIds(rows[..k] + [r] + rows[k..]) == RowIds(rows) + {r.id}
  {
    var out := rows[..k] + [r] + rows[k..];
    forall id | id in RowIds(out) ensures id == r.id || id in RowIds(rows) {
      var i :| 0 <= i < |out| && out[i].id == id;
      if i < k {
        assert out[i] == rows[i];
      } else if i > k {
        assert out[i] == rows[i - 1];
      }
    }
    forall id | id in RowIds(rows) + {r.id} ensures id in RowIds(out) {
      if id == r.id {
        assert out[k] == r;
      } else {
        var i :| 0 <= i < |rows| && rows[i].id == id;
        if i < k {
          assert out[i] == rows[i];
        } else {
          assert out[i + 1] == rows[i];
        }
      }
    }
  }

  /** Inserting the row of a stored session whose id is not yet listed keeps
      the ids distinct and every row the image of its session. */
  lemma InsertFresh(store: Store, rows: seq<Row>, k: nat, id: string)
    requires k <= |rows| && id in store
    requires RowsOf(store, rows) && DistinctIds(rows) && id !in RowIds(rows)
    ensures var out := rows[..k] + [RowOf(id, store[id])] + rows[k..];
              RowsOf(store, out) && DistinctIds(out)
  {
    var r := RowOf(id, store[id]);
    var out := rows[..k] + [r] + rows[k..];
    forall i | 0 <= i < |out|
      ensures out[i] == (if i < k then rows[i] else if i == k then r else rows[i - 1])
    {
    }
    forall i, j | 0 <= i < j < |out| ensures out[i].id != out[j].id {
      if i != k && j != k {
        assert out[i] == rows[if i < k then i else i - 1];
        assert out[j] == rows[if j < k then j else j - 1];
      } else if i == k {
        assert rows[j - 1].id in RowIds(rows);
      } else {
        assert rows[i].id in RowIds(rows);
      }
    }
  }

  /** `history(pid)`: exactly the selected sessions, each once, newest first,
      without the status column. The order among equal timestamps is not fixed,
      as SQL leaves it open. */
  method QueryHistory(store: Store, pid: string) returns (rows: seq<Row>)
    ensures RowsOf(store, rows)
    ensures RowIds(rows) == Selected(store, pid)
    ensures DistinctIds(rows)
    ensures NewestFirst(rows)
  {
    rows := [];
    var left := store.Keys;
    while left != {}
      invariant left <= store.Keys
      invariant RowsOf(store, rows)
      invariant RowIds(rows) == Selected(store, pid) - left
      invariant DistinctIds(rows)
      invariant NewestFirst(rows)
      decreases left
    {
      var id :| id in left;
      var s := store[id];
      if Selects(pid, s) {
        var r := RowOf(id, s);
        var k := InsertionPoint(rows, r.timestamp);
        InsertKeepsOrder(rows, r);
        InsertIds(rows, k, r);
        InsertFresh(store, rows, k, id);
        rows := rows[..k] + [r] + rows[k..];
      }
      left := left - {id};
    }
  }

  /** `all_history()`: every session, newest first. */
  method AllHistory(store: Store) returns (rows: seq<Row>)
    ensures RowsOf(store, rows)
    ensures RowIds(rows) == store.Keys
    ensures DistinctIds(rows)
    ensures NewestFirst(rows)
  {
    rows := QueryHistory(store, "");
  }

  /** A non-empty `pid` selects a session exactly when it occurs somewhere in
      the patient id. */
  lemma SelectsIff(pid: string, s: Session)
    requires pid != ""
    ensures Selects(pid, s) <==> exists i :: OccursAt(pid, s.patientId, i)
  {
    IsSubstringIff(pid, s.patientId);
  }

  /** The `pid == ""` branch of `history` is the same query as its
      `LIKE '%%'` branch would be: the empty pattern selects everything. */
  lemma EmptyPidSelectsAll(store: Store)
    ensures Selected(store, "") == store.Keys
    ensures forall id :: id in store ==> IsSubstring("", store[id].patientId)
  {
    forall id | id in store ensures IsSubstring("", store[id].patientId) {
      EmptyIsSubstring(store[id].patientId);
    }
  }

  /** A deleted session is never listed again, and the others keep their
      listing. */
  lemma DeleteHidesFromHistory(store: Store, sid: string, pid: string)
    ensures Selected(DeleteSession(store, sid).1, pid) == Selected(store, pid) - {sid}
  {
  }
}
