/** scripts/seed_db.js: every car of the catalog file is given JavaScript `||`
    defaults and written with `INSERT OR REPLACE`, which replaces the whole
    row, `status` and `created_at` included. */
module Seed {
  import opened Wrappers
  import opened Cars
  import opened CarStore
  import opened CarSync

  /** JavaScript `x || d` for a number: absent and 0 are falsy. */
  function OrNumber(x: Option<int>, d: int): (r: int)
    ensures x.Some? && x.value != 0 ==> r == x.value
    ensures x.None? || x.value == 0 ==> r == d
  {
    if x.Some? && x.value != 0 then x.value else d
  }

  /** JavaScript `x || d` for a string: absent and `''` are falsy. */
  function OrString(x: Option<string>, d: string): (r: string)
    ensures x.Some? && x.value != "" ==> r == x.value
    ensures x.None? || x.value == "" ==> r == d
  {
    if x.Some? && x.value != "" then x.value else d
  }

  /** The per-car defaults of the seed loop. `images || []` and `specs || {}`
      only fill in absent values: an array or object is truthy even when empty.
      `id`, `brand` and `model` get no default. */
  function Defaults(c: JsonCar): (r: JsonCar)
    ensures r.id == c.id && r.brand == c.brand && r.model == c.model
    ensures r.year == Some(OrNumber(c.year, 0)) && r.price == Some(OrNumber(c.price, 0))
    ensures r.mileage == Some(OrNumber(c.mileage, 0))
    ensures r.fuel == Some(OrString(c.fuel, "")) && r.transmission == Some(OrString(c.transmission, ""))
    ensures r.color == Some(OrString(c.color, ""))
    ensures r.images == Some(c.images.GetOr([])) && r.specs == Some(c.specs.GetOr(map[]))
    ensures r.status == Some(OrString(c.status, Active))
  {
    c.(year := Some(OrNumber(c.year, 0)),
       price := Some(OrNumber(c.price, 0)),
       mileage := Some(OrNumber(c.mileage, 0)),
       fuel := Some(OrString(c.fuel, "")),
       transmission := Some(OrString(c.transmission, "")),
       color := Some(OrString(c.color, "")),
       images := Some(c.images.GetOr([])),
       specs := Some(c.specs.GetOr(map[])),
       status := Some(OrString(c.status, Active)))
  }

  /** A car every defaulted field of which is already present, with a
      non-empty status. */
  predicate Defaulted(c: JsonCar)
  {
    && c.year.Some? && c.price.Some? && c.mileage.Some?
    && c.fuel.Some? && c.transmission.Some? && c.color.Some?
    && c.images.Some? && c.specs.Some?
    && c.status.Some? && c.status.value != ""
  }

  /** Defaulting yields a defaulted car, and leaves a defaulted car as it is;
      hence defaulting twice is defaulting once. */
  lemma DefaultsIdempotent(c: JsonCar)
    ensures Defaulted(Defaults(c))
    ensures Defaulted(c) ==> Defaults(c) == c
    ensures Defaults(Defaults(c)) == Defaults(c)
  {
    DefaultsFixed(Defaults(c));
    DefaultsFixed(c);
  }

  /** A defaulted car is a fixed point of the defaults. */
  lemma DefaultsFixed(c: JsonCar)
    ensures Defaulted(c) ==> Defaults(c) == c
  {
    if Defaulted(c) {
      var d := Defaults(c);
      assert d.year == c.year && d.price == c.price && d.mileage == c.mileage;
      assert d.fuel == c.fuel && d.transmission == c.transmission && d.color == c.color;
      assert d.images == c.images && d.specs == c.specs && d.status == c.status;
    }
  }

  /** The row the seed writes for `c` at time `now`, or `None` when `brand`
      or `model` is missing, the only NOT NULL columns `||` does not fill. */
  function SeedRow(c: JsonCar, now: nat): (r: Option<Car>)
    ensures r.Some? <==> c.brand.Some? && c.model.Some?
    ensures r.Some? ==> r.value.id == c.id && r.value.status == OrString(c.status, Active)
    ensures r.Some? ==> r.value.createdAt == now && r.value.updatedAt == now
    ensures r.Some? ==> Some(r.value.data) == DataOf(Defaults(c))
  {
    var d := Defaults(c);
    if c.brand.Some? && c.model.Some? then
      Some(Car(c.id, DataOf(d).value, d.status.value, now, now))
    else None
  }

  /** `INSERT OR REPLACE`: the row with the same id, if any, is deleted and
      the new row inserted. A NULL id never conflicts. */
  function Replace(s: Store, row: Car): (r: Store)
    requires row.createdAt <= row.updatedAt == s.clock
    ensures r.clock == s.clock + 1
    ensures Valid(s) ==> Valid(r)
    ensures r.rows == Kept(s, row) + [row]
  {
    var kept := Kept(s, row);
    assert Stamped(s.rows, s.clock) ==> Stamped(kept, s.clock) by {
      if Stamped(s.rows, s.clock) {
        forall i | 0 <= i < |kept| ensures kept[i].createdAt <= kept[i].updatedAt < s.clock {
          assert kept[i] in s.rows;
        }
      }
    }
    Store(kept + [row], s.clock + 1)
  }

  /** The rows `INSERT OR REPLACE` keeps before appending the new one. */
  function Kept(s: Store, row: Car): (r: seq<Car>)
    ensures forall x | x in r :: x in s.rows
    ensures forall x | x in s.rows && x.id != row.id :: x in r
    ensures forall x | x in r :: row.id.None? || x.id != row.id
    ensures row.id.None? ==> r == s.rows
  {
    if row.id.Some? then Without(s.rows, row.id.value) else s.rows
  }

  /** The replace always writes the new row, last; with a NULL id it never
      conflicts, so every earlier row stays in front of it. */
  lemma ReplaceAppends(s: Store, row: Car)
    requires row.createdAt <= row.updatedAt == s.clock
    ensures |Replace(s, row).rows| > 0 && Replace(s, row).rows[|Replace(s, row).rows| - 1] == row
    ensures row.id.None? ==> Replace(s, row).rows == s.rows + [row]
  {
  }

  /** After the replace the new row is found under its id. */
  lemma ReplaceFindsRow(s: Store, row: Car, k: string)
    requires Valid(s)
    requires row.createdAt <= row.updatedAt == s.clock
    requires row.id == Some(k)
    ensures Lookup(Replace(s, row), k) == Some(row)
  {
    var r := Replace(s, row);
    assert r.rows == Kept(s, row) + [row];
    LookupAt(r, k, |Kept(s, row)|);
  }

  /** The replace leaves every other key finding the row it found before. */
  lemma ReplaceKeepsOthers(s: Store, row: Car, k: string)
    requires Valid(s)
    requires row.createdAt <= row.updatedAt == s.clock
    requires row.id != Some(k)
    ensures Lookup(Replace(s, row), k) == Lookup(s, k)
  {
    var r := Replace(s, row);
    var kept := Kept(s, row);
    assert r.rows == kept + [row];
    LookupNone(s, k);
    LookupNone(r, k);
    if Lookup(s, k).Some? {
      var c := Lookup(s, k).value;
      assert c in kept;
      var j :| 0 <= j < |kept| && kept[j] == c;
      LookupAt(r, k, j);
    } else {
      forall j | 0 <= j < |r.rows| ensures r.rows[j].id != Some(k) {
        if j < |kept| {
          assert kept[j] in s.rows;
        }
      }
    }
  }

  /** The replaced row is found under its key, and every other key still
      finds the row it found before. */
  lemma ReplaceAt(s: Store, row: Car, k: string)
    requires Valid(s)
    requires row.createdAt <= row.updatedAt == s.clock
    ensures row.id == Some(k) ==> Lookup(Replace(s, row), k) == Some(row)
    ensures row.id != Some(k) ==> Lookup(Replace(s, row), k) == Lookup(s, k)
  {
    if row.id == Some(k) {
      ReplaceFindsRow(s, row, k);
    } else {
      ReplaceKeepsOthers(s, row, k);
    }
  }

  /** How the seed run ended: every row written, or the script died on the
      statement for car `at` (the statement has no error callback) with the
      rows before it written. */
  datatype SeedOutcome = Seeded(store: Store) | Aborted(store: Store, at: nat)

  /** The table after the statements for `cars` have run, first to last. */
  function SeedAll(s: Store, cars: seq<JsonCar>): (r: SeedOutcome)
    ensures Valid(s) ==> Valid(r.store)
    ensures r.store.clock >= s.clock
    ensures r.Aborted? ==> r.at < |cars|
    ensures r.Aborted? ==> (cars[r.at].brand.None? || cars[r.at].model.None?) && AllNamed(cars[..r.at])
    ensures r.Seeded? ==> AllNamed(cars)
    ensures r.Aborted? ==> SeedAll(s, cars[..r.at]).Seeded? && r.store == SeedAll(s, cars[..r.at]).store
    decreases |cars|
  {
    if |cars| == 0 then Seeded(s)
    else
      var init := cars[..|cars| - 1];
      match SeedAll(s, init)
      case Aborted(t, at) =>
        assert init[..at] == cars[..at] && init[at] == cars[at];
        assert SeedAll(s, init[..at]) == SeedAll(s, cars[..at]);
        Aborted(t, at)
      case Seeded(t) =>
        match SeedRow(cars[|cars| - 1], t.clock)
        case None =>
          assert cars[..|cars| - 1] == init;
          Aborted(t, |cars| - 1)
        case Some(row) =>
          assert AllNamed(cars) by {
            assert forall i | 0 <= i < |init| :: init[i] == cars[i];
          }
          Seeded(Replace(t, row))
  }

  /** The script: `count` is bumped once per car of the file as the
      statements are queued, and reported when they all succeeded. */
  method SeedDb(s: Store, cars: seq<JsonCar>) returns (r: SeedOutcome, count: nat)
    ensures count == |cars|
    ensures r == SeedAll(s, cars)
  {
    r := Seeded(s);
    count := 0;
    for i := 0 to |cars|
      invariant r == SeedAll(s, cars[..i])
      invariant count == i
    {
      SeedStep(s, cars, i);
      r := SeedNext(r, cars[i], i);
      count := count + 1;
    }
    assert cars[..|cars|] == cars;
  }

  /** The outcome after one more statement: nothing runs once the script has
      died, and statement `i` either dies or replaces its row. This repeats the
      step of `SeedAll` (`SeedStep` ties the two) so that the loop of `SeedDb`
      stays cheap to verify. */
  function SeedNext(o: SeedOutcome, c: JsonCar, i: nat): SeedOutcome
  {
    match o
    case Aborted(_, _) => o
    case Seeded(t) =>
      match SeedRow(c, t.clock)
      case None => Aborted(t, i)
      case Some(row) => Seeded(Replace(t, row))
  }

  /** One more statement of the seed, as the loop of `SeedDb` runs it. */
  lemma SeedStep(s: Store, cars: seq<JsonCar>, i: nat)
    requires i < |cars|
    ensures SeedAll(s, cars[..i + 1]) == SeedNext(SeedAll(s, cars[..i]), cars[i], i)
  {
    assert cars[..i + 1][..i] == cars[..i];
  }

  /** Every car of the file names a brand and a model. */
  predicate AllNamed(cars: seq<JsonCar>)
  {
    forall i | 0 <= i < |cars| :: cars[i].brand.Some? && cars[i].model.Some?
  }

  lemma AllNamedSplit(cars: seq<JsonCar>)
    requires |cars| > 0
    ensures AllNamed(cars) <==>
      AllNamed(cars[..|cars| - 1]) && cars[|cars| - 1].brand.Some? && cars[|cars| - 1].model.Some?
  {
    var init := cars[..|cars| - 1];
    assert forall i | 0 <= i < |init| :: init[i] == cars[i];
  }

  /** The seed completes exactly when every car names a brand and a model. */
  lemma {:induction false} SeedCompletes(s: Store, cars: seq<JsonCar>)
    ensures SeedAll(s, cars).Seeded? <==> AllNamed(cars)
    decreases |cars|
  {
    if |cars| > 0 {
      SeedCompletes(s, cars[..|cars| - 1]);
      AllNamedSplit(cars);
    }
  }

  /** Seeding never prunes: a row whose id is not in the file is untouched,
      however the run ends. */
  lemma {:induction false} SeedLeavesOthers(s: Store, cars: seq<JsonCar>, k: string)
    requires Valid(s)
    requires forall i | 0 <= i < |cars| :: cars[i].id != Some(k)
    ensures Lookup(SeedAll(s, cars).store, k) == Lookup(s, k)
    decreases |cars|
  {
    if |cars| > 0 {
      var init := cars[..|cars| - 1];
      SeedLeavesOthers(s, init, k);
      var t := SeedAll(s, init);
      if t.Seeded? && SeedRow(cars[|cars| - 1], t.store.clock).Some? {
        ReplaceAt(t.store, SeedRow(cars[|cars| - 1], t.store.clock).value, k);
      }
    }
  }

  /** The last statement of a complete seed replaces its row into the table
      the earlier statements left. */
  lemma SeedLastStep(s: Store, cars: seq<JsonCar>)
    requires |cars| > 0
    requires AllNamed(cars)
    ensures SeedAll(s, cars[..|cars| - 1]).Seeded?
    ensures var t := SeedAll(s, cars[..|cars| - 1]).store;
      && SeedRow(cars[|cars| - 1], t.clock).Some?
      && SeedAll(s, cars).store == Replace(t, SeedRow(cars[|cars| - 1], t.clock).value)
  {
    SeedCompletes(s, cars);
  }

  /** `row` is what the seed writes for file car `c`: the defaulted data and
      status, with both timestamps one reading of the clock no earlier than
      `since`. */
  predicate SeededFrom(row: Option<Car>, c: JsonCar, since: nat)
  {
    && row.Some?
    && Some(row.value.data) == DataOf(Defaults(c))
    && row.value.status == OrString(c.status, Active)
    && since <= row.value.createdAt == row.value.updatedAt
  }

  /** The case where the last car of the file is the last occurrence of `k`. */
  lemma SeedLastIsLast(s: Store, cars: seq<JsonCar>, k: string)
    requires Valid(s)
    requires AllNamed(cars)
    requires |cars| > 0 && cars[|cars| - 1].id == Some(k)
    ensures SeededFrom(Lookup(SeedAll(s, cars).store, k), cars[|cars| - 1], s.clock)
  {
    SeedLastStep(s, cars);
    var t := SeedAll(s, cars[..|cars| - 1]).store;
    ReplaceAt(t, SeedRow(cars[|cars| - 1], t.clock).value, k);
  }

  /** The case where the last car of the file has another id. */
  lemma SeedLastIsOther(s: Store, cars: seq<JsonCar>, k: string)
    requires Valid(s)
    requires AllNamed(cars)
    requires |cars| > 0 && cars[|cars| - 1].id != Some(k)
    ensures Lookup(SeedAll(s, cars).store, k) == Lookup(SeedAll(s, cars[..|cars| - 1]).store, k)
  {
    SeedLastStep(s, cars);
    var t := SeedAll(s, cars[..|cars| - 1]).store;
    ReplaceAt(t, SeedRow(cars[|cars| - 1], t.clock).value, k);
  }

  /** Dropping a last car with another id keeps the last occurrence of `k`. */
  lemma LastIndexOfInit(cars: seq<JsonCar>, k: string)
    requires |cars| > 0 && cars[|cars| - 1].id != Some(k)
    requires LastIndexOf(cars, k).Some?
    ensures LastIndexOf(cars[..|cars| - 1], k) == LastIndexOf(cars, k)
    ensures cars[..|cars| - 1][LastIndexOf(cars, k).value] == cars[LastIndexOf(cars, k).value]
  {
  }

  /** After a complete seed, each file id's row is the defaulted JSON car of
      its last occurrence, status included, with both timestamps set to one
      fresh reading of the clock. Duplicate ids: the last one wins. */
  lemma {:induction false} SeedLastWins(s: Store, cars: seq<JsonCar>, k: string)
    requires Valid(s)
    requires AllNamed(cars)
    requires LastIndexOf(cars, k).Some?
    ensures SeededFrom(Lookup(SeedAll(s, cars).store, k), cars[LastIndexOf(cars, k).value], s.clock)
    decreases |cars|
  {
    if cars[|cars| - 1].id == Some(k) {
      SeedLastIsLast(s, cars, k);
    } else {
      AllNamedSplit(cars);
      LastIndexOfInit(cars, k);
      SeedLastWins(s, cars[..|cars| - 1], k);
      SeedLastIsOther(s, cars, k);
    }
  }

  /** The contrast between the two writers on a row that already exists:
      sync keeps its `status` and `created_at`, the seed replaces both. */
  lemma SeedVersusSync(s: Store, c: JsonCar, k: string)
    requires Valid(s)
    requires c.id == Some(k) && DataOf(c).Some?
    requires Lookup(s, k).Some?
    ensures var prior := Lookup(s, k).value;
      var synced := Lookup(SyncAll(s, [c]), k);
      var seeded := Lookup(SeedAll(s, [c]).store, k);
      && synced.Some? && seeded.Some?
      && synced.value.status == prior.status && synced.value.createdAt == prior.createdAt
      && seeded.value.status == OrString(c.status, Active) && seeded.value.createdAt == s.clock
      && (prior.status != Active && c.status.None? ==> synced.value.status != seeded.value.status)
  {
    assert [c][..0] == [];
    SyncOneAt(s, c, k);
    ReplaceAt(s, SeedRow(c, s.clock).value, k);
  }
}
