/** `TimestampService.saveTimestamp`: a timestamp is stored only when it belongs to a
    parking point and that point does not already record the same instant. */
module TimestampService {
  import opened Wrappers
  import opened Tables
  import opened Entities
  import opened Repositories

  /** No two stored timestamps record the same instant for the same parking point. */
  ghost predicate NoDuplicateTimestamps(t: Table<Timestamp>)
  {
    forall a, b | a in t.rows && b in t.rows && a != b :: t.rows[a] != t.rows[b]
  }

  /** Point `id` has a stored record of instant `timestamp`. */
  ghost predicate Recorded(t: Table<Timestamp>, id: int, timestamp: string)
  {
    exists k | k in t.rows :: t.rows[k] == Timestamp(Some(id), timestamp)
  }

  /** The timestamp table after `saveTimestamp(ts)`. */
  function Saved(t: Table<Timestamp>, ts: Timestamp): (u: Table<Timestamp>)
    requires t.Valid()
    ensures u.Valid()
    ensures forall k | k in t.rows :: k in u.rows && u.rows[k] == t.rows[k]
    ensures |t.rows| <= |u.rows| <= |t.rows| + 1
    ensures |u.rows| == |t.rows| + 1 <==> ts.parkingPoint.Some? && !Recorded(t, ts.parkingPoint.value, ts.timestamp)
    ensures |u.rows| == |t.rows| ==> u == t
    ensures ts.parkingPoint.Some? ==> Recorded(u, ts.parkingPoint.value, ts.timestamp)
  {
    if ts.parkingPoint.Some? && CountTimestampDuplicates(t, ts.parkingPoint.value, ts.timestamp) == 0 then
      var u := t.Insert(ts);
      assert u.rows[t.nextId] == ts;
      u
    else
      t
  }

  /** `saveTimestamp`: changes the timestamp table and nothing else. */
  method SaveTimestamp(db: Database, ts: Timestamp)
    requires db.Valid()
    modifies db`timestamps
    ensures db.Valid()
    ensures db.timestamps == Saved(old(db.timestamps), ts)
  {
    if ts.parkingPoint.Some? && CountTimestampDuplicates(db.timestamps, ts.parkingPoint.value, ts.timestamp) == 0 {
      db.timestamps := db.timestamps.Insert(ts);
    }
  }

  /** Saving keeps the table free of duplicates. */
  lemma SavedKeepsNoDuplicates(t: Table<Timestamp>, ts: Timestamp)
    requires t.Valid() && NoDuplicateTimestamps(t)
    ensures NoDuplicateTimestamps(Saved(t, ts))
  {
    var u := Saved(t, ts);
    if |u.rows| != |t.rows| {
      forall a, b | a in u.rows && b in u.rows && a != b ensures u.rows[a] != u.rows[b] {
        if a == t.nextId && b in t.rows {
          assert t.rows[b] != Timestamp(Some(ts.parkingPoint.value), ts.timestamp);
        } else if b == t.nextId && a in t.rows {
          assert t.rows[a] != Timestamp(Some(ts.parkingPoint.value), ts.timestamp);
        }
      }
    }
  }

  /** Saving the same timestamp a second time changes nothing. */
  lemma SavedIdempotent(t: Table<Timestamp>, ts: Timestamp)
    requires t.Valid()
    ensures Saved(Saved(t, ts), ts) == Saved(t, ts)
  {
  }

  /** A timestamp without a parking point is never stored. */
  lemma SavedWithoutPoint(t: Table<Timestamp>, ts: Timestamp)
    requires t.Valid() && ts.parkingPoint.None?
    ensures Saved(t, ts) == t
  {
  }

  /** After saving the same (point, instant) twice on a duplicate-free table, exactly one
      row records it. */
  lemma {:induction false} SavedTwiceOneRow(t: Table<Timestamp>, id: int, instant: string)
    requires t.Valid() && NoDuplicateTimestamps(t)
    ensures var u := Saved(Saved(t, Timestamp(Some(id), instant)), Timestamp(Some(id), instant));
      exists k | k in u.rows :: u.rows[k] == Timestamp(Some(id), instant) &&
        forall j | j in u.rows && u.rows[j] == Timestamp(Some(id), instant) :: j == k
  {
    var ts := Timestamp(Some(id), instant);
    var u1 := Saved(t, ts);
    SavedKeepsNoDuplicates(t, ts);
    SavedIdempotent(t, ts);
    var k :| k in u1.rows && u1.rows[k] == ts;
  }
}
