/** A database table as the Spring Data repositories expose it: rows keyed by a
    generated id, and the id sequence that `save` draws the next id from. */
module Tables {
  import opened Wrappers

  datatype Table<R> = Table(rows: map<int, R>, nextId: int)
  {
    /** Ids are positive and were all drawn from the sequence. */
    ghost predicate Valid()
    {
      nextId >= 1 && forall id | id in rows :: 1 <= id < nextId
    }

    /** `save` of a new entity: it receives the next generated id. */
    function Insert(r: R): (t: Table<R>)
      ensures Valid() ==> t.Valid() && nextId !in rows && |t.rows| == |rows| + 1
      ensures nextId in t.rows && t.rows[nextId] == r && t.nextId > nextId
      ensures forall id | id in rows && id != nextId :: id in t.rows && t.rows[id] == rows[id]
      ensures forall id | id in t.rows && id != nextId :: id in rows
    {
      Table(rows[nextId := r], nextId + 1)
    }

    /** `save` of an entity that already has an id: its row is replaced. */
    function Update(id: int, r: R): (t: Table<R>)
      requires id in rows
      ensures t.rows.Keys == rows.Keys && t.nextId == nextId && t.rows[id] == r
      ensures forall k | k in rows && k != id :: t.rows[k] == rows[k]
      ensures Valid() ==> t.Valid()
    {
      Table(rows[id := r], nextId)
    }

    /** `findById`. */
    function FindById(id: int): (r: Option<R>)
      ensures r.Some? <==> id in rows
      ensures r.Some? ==> r.value == rows[id]
    {
      if id in rows then Some(rows[id]) else None
    }

    /** `count()`. */
    function Count(): nat
    {
      |rows|
    }
  }

  function EmptyTable<R>(): (t: Table<R>)
    ensures t.Valid() && t.rows == map[]
  {
    Table(map[], 1)
  }

  /** The first id of `[lo, hi)` that belongs to `ids`: the row a `LIMIT 1` query picks
      when it scans the table in id order. */
  function FirstIn(ids: set<int>, lo: int, hi: int): (r: Option<int>)
    ensures r.Some? ==> lo <= r.value < hi && r.value in ids
    ensures r.Some? ==> forall k | lo <= k < r.value :: k !in ids
    ensures r.None? ==> forall k | lo <= k < hi :: k !in ids
    decreases hi - lo
  {
    if lo >= hi then None
    else if lo in ids then Some(lo)
    else FirstIn(ids, lo + 1, hi)
  }

  /** Saving each of `rs` as a new entity, in order. */
  function InsertAll<R>(t: Table<R>, rs: seq<R>): (u: Table<R>)
    decreases |rs|
  {
    if rs == [] then t else InsertAll(t, rs[..|rs| - 1]).Insert(rs[|rs| - 1])
  }

  /** Every record gets its own row, at consecutive fresh ids, and no earlier row changes. */
  lemma {:induction false} InsertAllRows<R>(t: Table<R>, rs: seq<R>)
    requires t.Valid()
    ensures InsertAll(t, rs).Valid()
    ensures InsertAll(t, rs).nextId == t.nextId + |rs|
    ensures |InsertAll(t, rs).rows| == |t.rows| + |rs|
    ensures forall id | id in t.rows :: id in InsertAll(t, rs).rows && InsertAll(t, rs).rows[id] == t.rows[id]
    ensures forall id | id in InsertAll(t, rs).rows :: id in t.rows || t.nextId <= id < t.nextId + |rs|
    decreases |rs|
  {
    if rs != [] {
      InsertAllRows(t, rs[..|rs| - 1]);
    }
  }

  /** The `i`-th record is stored under the `i`-th fresh id. */
  lemma {:induction false} InsertAllAt<R>(t: Table<R>, rs: seq<R>, i: int)
    requires t.Valid() && 0 <= i < |rs|
    ensures t.nextId + i in InsertAll(t, rs).rows && InsertAll(t, rs).rows[t.nextId + i] == rs[i]
    decreases |rs|
  {
    var init := rs[..|rs| - 1];
    InsertAllRows(t, init);
    if i < |rs| - 1 {
      InsertAllAt(t, init, i);
    }
  }

  /** A set with no member is empty (extensionality, stated for the solver). */
  lemma NoMemberEmpty<T>(s: set<T>)
    requires forall x :: x !in s
    ensures s == {} && |s| == 0
  {
    assert forall x :: x in s <==> x in {};
  }

  /** A non-empty set has a member. */
  lemma NonEmptyHasMember<T>(s: set<T>)
    requires s != {}
    ensures exists x :: x in s
  {
    if forall x :: x !in s {
      NoMemberEmpty(s);
      assert false;
    }
  }
}
