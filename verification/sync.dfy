/** POST /api/cars/sync in server.js: the catalog file's cars, in file order,
    each run through the same upsert as POST /api/cars, with no defaults
    applied. A failing row is skipped; its callback still counts. */
module CarSync {
  import opened Wrappers
  import opened Cars
  import opened CarStore

  /** One statement of the loop: the upsert, or the unchanged table when the
      statement failed. */
  function SyncOne(s: Store, c: JsonCar): (r: Store)
    ensures Valid(s) ==> Valid(r)
    ensures r.clock >= s.clock
    ensures DataOf(c).None? ==> r == s
    ensures DataOf(c).Some? ==> Save(s, c).Success? && r == Save(s, c).value
  {
    match Save(s, c)
    case Success(s') => s'
    case Failure(_) => s
  }

  /** The table once the statements for `cars` have run, first to last. */
  function SyncAll(s: Store, cars: seq<JsonCar>): (r: Store)
    ensures Valid(s) ==> Valid(r)
    ensures r.clock >= s.clock
  {
    if |cars| == 0 then s
    else SyncOne(SyncAll(s, cars[..|cars| - 1]), cars[|cars| - 1])
  }

  /** The `forEach` loop with its completion callbacks: `synced` is bumped by
      every callback, whether its statement failed or not. The statements are
      issued outside `db.serialize`, so SQLite is not bound to run them in
      file order; the model assumes it does. */
  method Sync(s: Store, cars: seq<JsonCar>) returns (r: Store, synced: nat)
    ensures synced == |cars|
    ensures r == SyncAll(s, cars)
  {
    r := s;
    synced := 0;
    for i := 0 to |cars|
      invariant r == SyncAll(s, cars[..i])
      invariant synced == i
    {
      assert cars[..i + 1][..i] == cars[..i];
      r := SyncOne(r, cars[i]);
      synced := synced + 1;
    }
    assert cars[..|cars|] == cars;
  }

  /** What one statement does to the row under key `k`. */
  lemma SyncOneAt(s: Store, c: JsonCar, k: string)
    requires Valid(s)
    ensures c.id != Some(k) ==> Lookup(SyncOne(s, c), k) == Lookup(s, k)
    ensures c.id == Some(k) && DataOf(c).Some? ==>
      Lookup(SyncOne(s, c), k).Some? && Lookup(SyncOne(s, c), k).value.data == DataOf(c).value
    ensures Lookup(s, k).Some? ==>
      && Lookup(SyncOne(s, c), k).Some?
      && Lookup(SyncOne(s, c), k).value.status == Lookup(s, k).value.status
      && Lookup(SyncOne(s, c), k).value.createdAt == Lookup(s, k).value.createdAt
    ensures Lookup(s, k).None? && Lookup(SyncOne(s, c), k).Some? ==>
      Lookup(SyncOne(s, c), k).value.status == Active
  {
    if DataOf(c).Some? {
      match c.id
      case None => SaveWithoutIdAppends(s, c);
      case Some(k2) =>
        if Lookup(s, k2).Some? {
          SaveUpdatesExisting(s, c, k2);
        } else {
          SaveInsertsNew(s, c, k2);
        }
    }
  }

  /** Sync never prunes: a row whose id is not in the file is untouched. */
  lemma {:induction false} SyncLeavesOthers(s: Store, cars: seq<JsonCar>, k: string)
    requires Valid(s)
    requires forall i | 0 <= i < |cars| :: cars[i].id != Some(k)
    ensures Lookup(SyncAll(s, cars), k) == Lookup(s, k)
    decreases |cars|
  {
    if |cars| > 0 {
      var init := cars[..|cars| - 1];
      SyncLeavesOthers(s, init, k);
      SyncOneAt(SyncAll(s, init), cars[|cars| - 1], k);
    }
  }

  /** Sync never removes a row and never changes a row's `status` or
      `created_at`; rows it creates are active. */
  lemma {:induction false} SyncKeepsStatus(s: Store, cars: seq<JsonCar>, k: string)
    requires Valid(s)
    ensures Lookup(s, k).Some? ==>
      && Lookup(SyncAll(s, cars), k).Some?
      && Lookup(SyncAll(s, cars), k).value.status == Lookup(s, k).value.status
      && Lookup(SyncAll(s, cars), k).value.createdAt == Lookup(s, k).value.createdAt
    ensures Lookup(s, k).None? && Lookup(SyncAll(s, cars), k).Some? ==>
      Lookup(SyncAll(s, cars), k).value.status == Active
    decreases |cars|
  {
    if |cars| > 0 {
      var init := cars[..|cars| - 1];
      SyncKeepsStatus(s, init, k);
      SyncOneAt(SyncAll(s, init), cars[|cars| - 1], k);
    }
  }

  /** The position of the last car in `cars` with id `k`. */
  function LastIndexOf(cars: seq<JsonCar>, k: string): (r: Option<nat>)
    ensures r.Some? ==> r.value < |cars| && cars[r.value].id == Some(k)
    ensures r.Some? ==> forall j | r.value < j < |cars| :: cars[j].id != Some(k)
    ensures r.None? ==> forall j | 0 <= j < |cars| :: cars[j].id != Some(k)
  {
    if |cars| == 0 then None
    else if cars[|cars| - 1].id == Some(k) then Some(|cars| - 1)
    else LastIndexOf(cars[..|cars| - 1], k)
  }

  /** With duplicate ids in the file, the last occurrence wins, provided its
      statement succeeds. */
  lemma {:induction false} SyncLastWins(s: Store, cars: seq<JsonCar>, k: string)
    requires Valid(s)
    requires LastIndexOf(cars, k).Some? && DataOf(cars[LastIndexOf(cars, k).value]).Some?
    ensures Lookup(SyncAll(s, cars), k).Some?
    ensures Lookup(SyncAll(s, cars), k).value.data == DataOf(cars[LastIndexOf(cars, k).value]).value
    decreases |cars|
  {
    var init := cars[..|cars| - 1];
    var i := LastIndexOf(cars, k).value;
    SyncOneAt(SyncAll(s, init), cars[|cars| - 1], k);
    if i < |cars| - 1 {
      assert LastIndexOf(cars, k) == LastIndexOf(init, k);
      assert init[i] == cars[i];
      SyncLastWins(s, init, k);
    }
  }
}
