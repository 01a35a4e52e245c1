/** The `cars` table of server.js: its row type, the JSON objects written
    into it, and the keyed view of the table. */
module Cars {
  import opened Wrappers

  /** A car object as it arrives in a request body or in the catalog file.
      Every field may be absent; `None` is `undefined` (or `null`). */
  datatype JsonCar = JsonCar(
    id: Option<string>,
    brand: Option<string>,
    model: Option<string>,
    year: Option<int>,
    price: Option<int>,
    mileage: Option<int>,
    fuel: Option<string>,
    transmission: Option<string>,
    color: Option<string>,
    images: Option<seq<string>>,
    specs: Option<map<string, string>>,
    status: Option<string>)

  /** The NOT NULL data columns, `brand` through `specs`. `images` and `specs`
      are stored as JSON text; encoding is taken as the identity here. */
  datatype CarData = CarData(
    brand: string,
    model: string,
    year: int,
    price: int,
    mileage: int,
    fuel: string,
    transmission: string,
    color: string,
    images: seq<string>,
    specs: map<string, string>)

  /** One row of the table. `id` is a TEXT PRIMARY KEY, which SQLite lets be
      NULL (`None`); timestamps are readings of a logical clock. */
  datatype Car = Car(
    id: Option<string>,
    data: CarData,
    status: string,
    createdAt: nat,
    updatedAt: nat)

  /** The table in rowid order, and the logical clock that stands for
      `CURRENT_TIMESTAMP`: the next write is stamped with `clock`. */
  datatype Store = Store(rows: seq<Car>, clock: nat)

  const Active := "active"

  /** The PRIMARY KEY constraint: no two rows share a non-null id. */
  predicate UniqueIds(rows: seq<Car>)
  {
    forall i, j | 0 <= i < j < |rows| :: rows[i].id.Some? ==> rows[i].id != rows[j].id
  }

  /** Every row was stamped by an earlier write, and `updated_at` never
      precedes `created_at`. */
  predicate Stamped(rows: seq<Car>, clock: nat)
  {
    forall i | 0 <= i < |rows| :: rows[i].createdAt <= rows[i].updatedAt < clock
  }

  predicate Valid(s: Store)
  {
    UniqueIds(s.rows) && Stamped(s.rows, s.clock)
  }

  /** The NOT NULL columns of a JSON car, when all of them are present. */
  function DataOf(c: JsonCar): (r: Option<CarData>)
    ensures r.Some? <==>
      && c.brand.Some? && c.model.Some? && c.year.Some? && c.price.Some?
      && c.mileage.Some? && c.fuel.Some? && c.transmission.Some?
      && c.color.Some? && c.images.Some? && c.specs.Some?
    ensures r.Some? ==>
      && r.value.brand == c.brand.value && r.value.model == c.model.value
      && r.value.year == c.year.value && r.value.price == c.price.value
      && r.value.mileage == c.mileage.value && r.value.fuel == c.fuel.value
      && r.value.transmission == c.transmission.value && r.value.color == c.color.value
      && r.value.images == c.images.value && r.value.specs == c.specs.value
  {
    if && c.brand.Some? && c.model.Some? && c.year.Some? && c.price.Some?
       && c.mileage.Some? && c.fuel.Some? && c.transmission.Some?
       && c.color.Some? && c.images.Some? && c.specs.Some?
    then Some(CarData(c.brand.value, c.model.value, c.year.value, c.price.value,
                      c.mileage.value, c.fuel.value, c.transmission.value,
                      c.color.value, c.images.value, c.specs.value))
    else None
  }

  /** The keyed lookup behind `ON CONFLICT(id)` and `DELETE … WHERE id = ?`:
      the position of the first row with id `k`. */
  function IndexOf(rows: seq<Car>, k: string): (r: Option<nat>)
    ensures r.Some? ==> r.value < |rows| && rows[r.value].id == Some(k)
    ensures r.Some? ==> forall j | 0 <= j < r.value :: rows[j].id != Some(k)
    ensures r.None? ==> forall j | 0 <= j < |rows| :: rows[j].id != Some(k)
  {
    if |rows| == 0 then None
    else if rows[0].id == Some(k) then Some(0)
    else match IndexOf(rows[1..], k)
      case None => None
      case Some(i) => Some(i + 1)
  }

  /** The row stored under key `k`, if any. */
  function Lookup(s: Store, k: string): Option<Car>
  {
    match IndexOf(s.rows, k)
    case None => None
    case Some(i) => Some(s.rows[i])
  }

  /** Under the key constraint, a row with id `k` is the one `Lookup` finds. */
  lemma LookupAt(s: Store, k: string, i: nat)
    requires UniqueIds(s.rows)
    requires i < |s.rows| && s.rows[i].id == Some(k)
    ensures Lookup(s, k) == Some(s.rows[i])
  {
  }

  /** `Lookup` finds nothing exactly when no row has id `k`. */
  lemma LookupNone(s: Store, k: string)
    ensures Lookup(s, k).None? <==> forall j | 0 <= j < |s.rows| :: s.rows[j].id != Some(k)
  {
  }
}
