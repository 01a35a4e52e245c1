/** The two writers of the admin API in server.js: the `INSERT … ON CONFLICT(id)
    DO UPDATE` save of POST /api/cars and the keyed DELETE of
    DELETE /api/cars/:id. */
module CarStore {
  import opened Wrappers
  import opened Cars

  /** The only statement error the model raises: a NOT NULL column bound to NULL. */
  datatype DbError = NotNullViolation

  /** The upsert itself, once every NOT NULL column has a value. A new id (or a
      NULL one, which never conflicts) is inserted with the column defaults
      `status = 'active'` and both timestamps `now`; an existing id gets the
      data columns and `updated_at` replaced, nothing else. */
  function Upsert(s: Store, id: Option<string>, d: CarData): (r: Store)
    ensures r.clock == s.clock + 1
    ensures Valid(s) ==> Valid(r)
  {
    var now := s.clock;
    if id.Some? && IndexOf(s.rows, id.value).Some? then
      var i := IndexOf(s.rows, id.value).value;
      Store(s.rows[i := s.rows[i].(data := d, updatedAt := now)], now + 1)
    else
      Store(s.rows + [Car(id, d, Active, now, now)], now + 1)
  }

  /** POST /api/cars: the statement fails, and the table is left as it was,
      exactly when some NOT NULL column is missing from the body. The body's
      `status` is never read. */
  function Save(s: Store, c: JsonCar): (r: Result<Store, DbError>)
    ensures r.Failure? <==> DataOf(c).None?
    ensures r.Success? ==> r.value.clock == s.clock + 1
    ensures Valid(s) && r.Success? ==> Valid(r.value)
  {
    match DataOf(c)
    case None => Failure(NotNullViolation)
    case Some(d) => Success(Upsert(s, c.id, d))
  }

  /** Saving a new id adds exactly one row, active and stamped `now` twice,
      and leaves every other row where and as it was. */
  lemma SaveInsertsNew(s: Store, c: JsonCar, k: string)
    requires Valid(s)
    requires c.id == Some(k) && DataOf(c).Some?
    requires Lookup(s, k).None?
    ensures Save(s, c).Success?
    ensures var r := Save(s, c).value;
      && |r.rows| == |s.rows| + 1
      && r.rows[..|s.rows|] == s.rows
      && Lookup(r, k) == Some(Car(Some(k), DataOf(c).value, Active, s.clock, s.clock))
      && forall k' | k' != k :: Lookup(r, k') == Lookup(s, k')
  {
    var r := Save(s, c).value;
    LookupNone(s, k);
    assert r.rows == s.rows + [Car(Some(k), DataOf(c).value, Active, s.clock, s.clock)];
    LookupAt(r, k, |s.rows|);
    forall k' | k' != k
      ensures Lookup(r, k') == Lookup(s, k')
    {
      LookupNone(s, k');
      LookupNone(r, k');
      if Lookup(s, k').Some? {
        var j := IndexOf(s.rows, k').value;
        LookupAt(r, k', j);
      }
    }
  }

  /** Saving an existing id overwrites `brand` … `specs` and refreshes
      `updated_at`, keeps `status` and `created_at`, and leaves the table
      the same size, so the id still has exactly one row. */
  lemma SaveUpdatesExisting(s: Store, c: JsonCar, k: string)
    requires Valid(s)
    requires c.id == Some(k) && DataOf(c).Some?
    requires Lookup(s, k).Some?
    ensures Save(s, c).Success?
    ensures var r := Save(s, c).value; var prior := Lookup(s, k).value;
      && |r.rows| == |s.rows|
      && Lookup(r, k) == Some(Car(Some(k), DataOf(c).value, prior.status, prior.createdAt, s.clock))
      && (forall i | 0 <= i < |s.rows| && s.rows[i].id != Some(k) :: r.rows[i] == s.rows[i])
      && forall k' | k' != k :: Lookup(r, k') == Lookup(s, k')
  {
    var r := Save(s, c).value;
    var i := IndexOf(s.rows, k).value;
    assert r.rows == s.rows[i := s.rows[i].(data := DataOf(c).value, updatedAt := s.clock)];
    LookupAt(r, k, i);
    forall k' | k' != k
      ensures Lookup(r, k') == Lookup(s, k')
    {
      LookupNone(s, k');
      LookupNone(r, k');
      if Lookup(s, k').Some? {
        var j := IndexOf(s.rows, k').value;
        LookupAt(r, k', j);
      }
    }
  }

  /** Two rows agree on everything except `updated_at`. */
  predicate SameButUpdatedAt(a: Car, b: Car)
  {
    a.(updatedAt := 0) == b.(updatedAt := 0)
  }

  /** Saving the same keyed payload twice gives the table saving it once
      gives, apart from `updated_at`. */
  lemma SaveTwice(s: Store, c: JsonCar)
    requires Valid(s)
    requires c.id.Some? && DataOf(c).Some?
    ensures Save(s, c).Success? && Save(Save(s, c).value, c).Success?
    ensures var once := Save(s, c).value; var twice := Save(once, c).value;
      && |twice.rows| == |once.rows|
      && forall i | 0 <= i < |once.rows| :: SameButUpdatedAt(twice.rows[i], once.rows[i])
  {
    var k := c.id.value;
    var once := Save(s, c).value;
    if Lookup(s, k).Some? {
      SaveUpdatesExisting(s, c, k);
    } else {
      SaveInsertsNew(s, c, k);
    }
    SaveUpdatesExisting(once, c, k);
  }

  /** Without an id the insert never conflicts: a second identical save adds
      a second row, so the idempotence above needs a keyed payload. */
  lemma SaveWithoutIdAppends(s: Store, c: JsonCar)
    requires Valid(s)
    requires c.id.None? && DataOf(c).Some?
    ensures Save(s, c).Success? && Save(Save(s, c).value, c).Success?
    ensures Save(s, c).value.rows == s.rows + [Car(None, DataOf(c).value, Active, s.clock, s.clock)]
    ensures Save(Save(s, c).value, c).value.rows ==
      s.rows + [Car(None, DataOf(c).value, Active, s.clock, s.clock),
                Car(None, DataOf(c).value, Active, s.clock + 1, s.clock + 1)]
    ensures |Save(Save(s, c).value, c).value.rows| == |s.rows| + 2
    ensures forall k :: Lookup(Save(s, c).value, k) == Lookup(s, k)
  {
    var r := Save(s, c).value;
    assert r.rows == s.rows + [Car(None, DataOf(c).value, Active, s.clock, s.clock)];
    forall k
      ensures Lookup(r, k) == Lookup(s, k)
    {
      LookupNone(s, k);
      LookupNone(r, k);
      if Lookup(s, k).Some? {
        LookupAt(r, k, IndexOf(s.rows, k).value);
      }
    }
  }

  /** The rows of `rows` whose id is not `k`, in order. */
  function Without(rows: seq<Car>, k: string): (r: seq<Car>)
    ensures |r| <= |rows|
    ensures forall x | x in r :: x in rows && x.id != Some(k)
    ensures forall x | x in rows && x.id != Some(k) :: x in r
    ensures IndexOf(rows, k).None? ==> r == rows
    ensures UniqueIds(rows) ==> UniqueIds(r)
    ensures UniqueIds(rows) && IndexOf(rows, k).Some? ==> |r| == |rows| - 1
  {
    if |rows| == 0 then []
    else if rows[0].id == Some(k) then
      assert rows == [rows[0]] + rows[1..];
      Without(rows[1..], k)
    else
      var tail := Without(rows[1..], k);
      assert rows == [rows[0]] + rows[1..];
      assert UniqueIds(rows) ==> UniqueIds([rows[0]] + tail) by {
        if UniqueIds(rows) {
          UniqueHead(rows, tail);
        }
      }
      [rows[0]] + tail
  }

  /** A row may lead rows taken from the rest of a table whose ids are unique. */
  lemma UniqueHead(rows: seq<Car>, tail: seq<Car>)
    requires |rows| > 0 && UniqueIds(rows)
    requires UniqueIds(tail)
    requires forall x | x in tail :: x in rows[1..]
    ensures UniqueIds([rows[0]] + tail)
  {
    forall j | 0 <= j < |tail| && rows[0].id.Some? ensures rows[0].id != tail[j].id {
      assert tail[j] in tail;
      var i :| 0 <= i < |rows[1..]| && rows[1..][i] == tail[j];
      assert rows[i + 1] == tail[j];
    }
    var r := [rows[0]] + tail;
    forall i, j | 0 <= i < j < |r| && r[i].id.Some? ensures r[i].id != r[j].id {
      if i > 0 {
        assert r[i] == tail[i - 1] && r[j] == tail[j - 1];
      } else {
        assert r[j] == tail[j - 1];
      }
    }
  }

  /** DELETE /api/cars/:id: removes the row with that id. It succeeds whether
      or not such a row exists. */
  function Delete(s: Store, k: string): (r: Store)
    ensures Lookup(r, k).None?
    ensures r.clock == s.clock
    ensures Valid(s) ==> Valid(r)
  {
    Store(Without(s.rows, k), s.clock)
  }

  /** Deleting `k` leaves the row found under another key `k'` in place. */
  lemma DeleteKeepsKey(s: Store, k: string, k': string)
    requires Valid(s)
    requires k' != k
    ensures Lookup(Delete(s, k), k') == Lookup(s, k')
  {
    var r := Delete(s, k);
    LookupNone(s, k');
    LookupNone(r, k');
    if Lookup(s, k').Some? {
      var c := Lookup(s, k').value;
      assert c in r.rows;
      var j :| 0 <= j < |r.rows| && r.rows[j] == c;
      LookupAt(r, k', j);
    }
  }

  /** Delete removes exactly the row with that id: one row fewer when it was
      there, and every other key still finds the same row. */
  lemma DeleteRemovesOnly(s: Store, k: string)
    requires Valid(s)
    ensures |Delete(s, k).rows| == if Lookup(s, k).Some? then |s.rows| - 1 else |s.rows|
    ensures forall k' | k' != k :: Lookup(Delete(s, k), k') == Lookup(s, k')
  {
    forall k' | k' != k
      ensures Lookup(Delete(s, k), k') == Lookup(s, k')
    {
      DeleteKeepsKey(s, k, k');
    }
  }

  /** Deleting an absent id leaves the store exactly as it was, so a second
      delete of the same id changes nothing. */
  lemma DeleteIdempotent(s: Store, k: string)
    ensures Lookup(s, k).None? ==> Delete(s, k) == s
    ensures Delete(Delete(s, k), k) == Delete(s, k)
  {
  }
}
