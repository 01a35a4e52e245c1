/** The catalog logic of assets/js/app.js: the parsing done by `loadCars`,
    the filter of `renderGrid` and its thumbnail choice, the option lists and
    price bound of `initFilters`, `resetFilters`, and the two lookups by id
    (`openCarModal` and the booking form's `carName`). */
module Catalog {
  import opened Wrappers
  import opened JsStrings
  import Cars

  /** A JavaScript id value: the API sends text (or `null` for a row stored
      without id); the static catalog file may hold numbers. */
  datatype JsId = StrId(s: string) | NumId(n: int) | NullId

  /** A structured value as it reaches the page: still JSON text (the API
      sends `images`/`specs` columns as stored) or already parsed (the static
      file). JSON encoding is taken as the identity, so text carries the
      value it encodes. */
  datatype Wire<T> = Text(encoded: T) | Parsed(value: T)

  /** A car object in `state.cars`, reduced to the fields the logic reads. */
  datatype Listing = Listing(
    id: JsId,
    brand: string,
    model: string,
    price: int,
    images: Option<Wire<seq<string>>>,
    specs: Option<Wire<map<string, string>>>)

  /** `state.filters`. An empty brand or model means "All". */
  datatype Filters = Filters(brand: string, model: string, maxPrice: int)

  const InitialFilters := Filters("", "", 200000)

  const FallbackThumbnail := "assets/images/products/images-1762463495584-624652520.jpg"

  /** The value a wire field carries, parsed or not. */
  function Decoded<T>(w: Option<Wire<T>>): Option<T>
  {
    match w
    case None => None
    case Some(Text(x)) => Some(x)
    case Some(Parsed(x)) => Some(x)
  }

  /** `typeof v === 'string' ? JSON.parse(v) : v`. */
  function Parse<T>(w: Option<Wire<T>>): (r: Option<Wire<T>>)
    ensures Decoded(r) == Decoded(w)
    ensures r.None? || r.value.Parsed?
  {
    match w
    case Some(Text(x)) => Some(Parsed(x))
    case _ => w
  }

  /** No structured field of `c` is still JSON text. */
  predicate IsParsed(c: Listing)
  {
    (c.images.None? || c.images.value.Parsed?) && (c.specs.None? || c.specs.value.Parsed?)
  }

  /** The per-car step of `loadCars`: parse `images` and `specs` when they are
      text, keep every other field (`...car`). */
  function Normalise(c: Listing): (r: Listing)
    ensures IsParsed(r)
    ensures Decoded(r.images) == Decoded(c.images) && Decoded(r.specs) == Decoded(c.specs)
    ensures r.id == c.id && r.brand == c.brand && r.model == c.model && r.price == c.price
  {
    c.(images := Parse(c.images), specs := Parse(c.specs))
  }

  /** Normalising leaves parsed values unchanged, so normalising twice is
      normalising once. */
  lemma NormaliseIdempotent(c: Listing)
    ensures IsParsed(c) ==> Normalise(c) == c
    ensures Normalise(Normalise(c)) == Normalise(c)
  {
  }

  /** A row of GET /api/cars/public as the page receives it: `images` and
      `specs` are the stored JSON text, a NULL id arrives as `null`. */
  function FromRow(row: Cars.Car): Listing
  {
    Listing(
      match row.id case Some(k) => StrId(k) case None => NullId,
      row.data.brand, row.data.model, row.data.price,
      Some(Text(row.data.images)), Some(Text(row.data.specs)))
  }

  /** Serialising at the store and parsing in `loadCars` gives the page the
      very images and specs the row was saved with. */
  lemma RowRoundTrip(row: Cars.Car)
    ensures Normalise(FromRow(row)).images == Some(Parsed(row.data.images))
    ensures Normalise(FromRow(row)).specs == Some(Parsed(row.data.specs))
    ensures Normalise(FromRow(row)).brand == row.data.brand
    ensures Normalise(FromRow(row)).price == row.data.price
  {
  }

  /** The `renderGrid` predicate: brand and model match unless "All", and the
      price is within the slider bound. */
  predicate Matches(c: Listing, f: Filters)
  {
    && (f.brand == "" || c.brand == f.brand)
    && (f.model == "" || c.model == f.model)
    && c.price <= f.maxPrice
  }

  /** `a` is `b` with some entries dropped, the rest in order. */
  predicate IsSubsequence(a: seq<Listing>, b: seq<Listing>)
    decreases |b|
  {
    if |a| == 0 then true
    else if |b| == 0 then false
    else (a[0] == b[0] && IsSubsequence(a[1..], b[1..])) || IsSubsequence(a, b[1..])
  }

  /** `state.cars.filter(...)`: the cars matching every filter, in their order,
      each as often as it occurs. */
  function Filtered(cars: seq<Listing>, f: Filters): (r: seq<Listing>)
    ensures forall c | c in r :: Matches(c, f)
    ensures forall c :: multiset(r)[c] == if Matches(c, f) then multiset(cars)[c] else 0
    ensures IsSubsequence(r, cars)
  {
    if |cars| == 0 then []
    else
      assert cars == [cars[0]] + cars[1..];
      var tail := Filtered(cars[1..], f);
      if Matches(cars[0], f) then [cars[0]] + tail
      else
        assert |tail| > 0 ==> IsSubsequence(tail, cars) by {
          if |tail| > 0 {
            assert IsSubsequence(tail, cars[1..]);
          }
        }
        tail
  }

  /** `g` asks for at least as much as `f`: a brand or model that `f` fixes is
      fixed to the same value, and the price bound is no higher. */
  predicate Narrower(g: Filters, f: Filters)
  {
    && (f.brand == "" || g.brand == f.brand)
    && (f.model == "" || g.model == f.model)
    && g.maxPrice <= f.maxPrice
  }

  /** Skipping one more leading entry of the longer sequence keeps a
      subsequence. */
  lemma {:induction false} SubsequenceCons(a: seq<Listing>, x: Listing, b: seq<Listing>)
    requires IsSubsequence(a, b)
    ensures IsSubsequence(a, [x] + b)
  {
    if |a| > 0 {
      assert ([x] + b)[1..] == b;
    }
  }

  /** Lowering the price bound or fixing a brand or model only removes cars
      from the grid. */
  lemma {:induction false} FilterMonotone(cars: seq<Listing>, g: Filters, f: Filters)
    requires Narrower(g, f)
    ensures IsSubsequence(Filtered(cars, g), Filtered(cars, f))
    decreases |cars|
  {
    if |cars| > 0 {
      FilterMonotone(cars[1..], g, f);
      var tg := Filtered(cars[1..], g);
      var tf := Filtered(cars[1..], f);
      if Matches(cars[0], g) {
        assert ([cars[0]] + tg)[1..] == tg && ([cars[0]] + tf)[1..] == tf;
      } else if Matches(cars[0], f) {
        SubsequenceCons(tg, cars[0], tf);
      }
    }
  }

  /** When every car matches, the filter keeps the list as it is. */
  lemma {:induction false} FilterKeepsAll(cars: seq<Listing>, f: Filters)
    requires forall c | c in cars :: Matches(c, f)
    ensures Filtered(cars, f) == cars
    decreases |cars|
  {
    if |cars| > 0 {
      assert Matches(cars[0], f);
      assert Filtered(cars, f) == [cars[0]] + Filtered(cars[1..], f);
      assert forall c | c in cars[1..] :: c in cars;
      FilterKeepsAll(cars[1..], f);
      assert cars == [cars[0]] + cars[1..];
    }
  }

  /** `Math.max(...state.cars.map(c => c.price))` over a non-empty list. */
  function MaxPrice(cars: seq<Listing>): (r: int)
    requires |cars| > 0
    ensures forall i | 0 <= i < |cars| :: cars[i].price <= r
    ensures exists i | 0 <= i < |cars| :: cars[i].price == r
  {
    if |cars| == 1 then cars[0].price
    else
      var m := MaxPrice(cars[1..]);
      assert forall i | 1 <= i < |cars| :: cars[i] == cars[1..][i - 1];
      if cars[0].price >= m then cars[0].price
      else
        var i :| 0 <= i < |cars[1..]| && cars[1..][i].price == m;
        assert cars[i + 1].price == m;
        m
  }

  /** The price slider's start value set by `initFilters`. The filter itself
      keeps its initial bound until the slider is moved. */
  function SliderStart(cars: seq<Listing>): (r: int)
    requires |cars| > 0
    ensures r <= 200000 && r <= MaxPrice(cars)
    ensures r == 200000 || r == MaxPrice(cars)
  {
    if MaxPrice(cars) < 200000 then MaxPrice(cars) else 200000
  }

  /** `resetFilters`: "All" brands and models, and the slider's maximum, the
      largest price in the data. */
  function ResetFilters(cars: seq<Listing>): (r: Filters)
    requires |cars| > 0
    ensures r.brand == "" && r.model == ""
    ensures forall c | c in cars :: c.price <= r.maxPrice
    ensures r.maxPrice == MaxPrice(cars)
  {
    assert forall c | c in cars :: exists i | 0 <= i < |cars| :: cars[i] == c;
    Filters("", "", MaxPrice(cars))
  }

  /** After a reset every car is shown, in its order. */
  lemma ResetShowsAll(cars: seq<Listing>)
    requires |cars| > 0
    ensures Filtered(cars, ResetFilters(cars)) == cars
  {
    FilterKeepsAll(cars, ResetFilters(cars));
  }

  /** Before any filter is touched the bound is 200000, so a dearer car is
      hidden until the slider is moved or the filters are reset. */
  lemma InitialHidesExpensive(cars: seq<Listing>, c: Listing)
    requires c in cars && c.price > 200000
    ensures c !in Filtered(cars, InitialFilters)
    ensures c in Filtered(cars, ResetFilters(cars))
  {
    ResetShowsAll(cars);
  }

  /** The brands of the cars, in order, with repeats. */
  function Brands(cars: seq<Listing>): (r: seq<string>)
    ensures |r| == |cars| && forall i | 0 <= i < |cars| :: r[i] == cars[i].brand
  {
    seq(|cars|, i requires 0 <= i < |cars| => cars[i].brand)
  }

  /** The models of the cars, in order, with repeats. */
  function Models(cars: seq<Listing>): (r: seq<string>)
    ensures |r| == |cars| && forall i | 0 <= i < |cars| :: r[i] == cars[i].model
  {
    seq(|cars|, i requires 0 <= i < |cars| => cars[i].model)
  }

  /** The brand select's options after "All": ascending, each brand once,
      every entry the brand of some car and every car's brand present. */
  function BrandOptions(cars: seq<Listing>): (r: seq<string>)
    ensures Ascending(r)
    ensures forall b | b in r :: exists i | 0 <= i < |cars| :: cars[i].brand == b
    ensures forall i | 0 <= i < |cars| :: cars[i].brand in r
  {
    var r := SortedDistinct(Brands(cars));
    assert forall i | 0 <= i < |cars| :: Brands(cars)[i] in Brands(cars);
    r
  }

  /** The model select's options after "All", as for brands. */
  function ModelOptions(cars: seq<Listing>): (r: seq<string>)
    ensures Ascending(r)
    ensures forall m | m in r :: exists i | 0 <= i < |cars| :: cars[i].model == m
    ensures forall i | 0 <= i < |cars| :: cars[i].model in r
  {
    var r := SortedDistinct(Models(cars));
    assert forall i | 0 <= i < |cars| :: Models(cars)[i] in Models(cars);
    r
  }

  /** Picking an offered brand shows exactly the cars of that brand that the
      other filters let through; "All" (the empty value) excludes none. */
  lemma BrandOptionSelects(cars: seq<Listing>, f: Filters, c: Listing)
    requires f.brand in BrandOptions(cars) || f.brand == ""
    ensures c in Filtered(cars, f) <==>
      c in cars && (f.brand == "" || c.brand == f.brand) && Matches(c, f.(brand := ""))
  {
    assert c in Filtered(cars, f) <==> multiset(Filtered(cars, f))[c] > 0;
  }

  /** The image shown on a card: `images[0]` when there is a non-empty first
      entry, else the local fallback. If `images` were still JSON text,
      `images[0]` would be its first character, `[` for any JSON array. */
  function Thumbnail(images: Option<Wire<seq<string>>>): (r: string)
    ensures r != ""
    ensures images.None? ==> r == FallbackThumbnail
    ensures images.Some? && images.value.Parsed? && |images.value.value| > 0 && images.value.value[0] != "" ==>
      r == images.value.value[0]
    ensures images.Some? && images.value.Parsed? ==>
      (r == FallbackThumbnail <==> |images.value.value| == 0 || images.value.value[0] == "" || images.value.value[0] == FallbackThumbnail)
  {
    match images
    case None => FallbackThumbnail
    case Some(Text(_)) => "["
    case Some(Parsed(xs)) => if |xs| > 0 && xs[0] != "" then xs[0] else FallbackThumbnail
  }

  /** A card built from an API row shows the row's first image, or the
      fallback when the row has none. */
  lemma RowThumbnail(row: Cars.Car)
    ensures var t := Thumbnail(Normalise(FromRow(row)).images);
      (|row.data.images| > 0 && row.data.images[0] != "" ==> t == row.data.images[0])
      && (|row.data.images| == 0 || row.data.images[0] == "" ==> t == FallbackThumbnail)
  {
  }

  /** `String(id)`. */
  function IdString(id: JsId): (r: string)
    ensures id.StrId? ==> r == id.s
    ensures id.NumId? && id.n >= 0 ==> AllDigits(r) && DecimalValue(r) == id.n
    ensures id.NumId? && id.n < 0 ==> |r| > 1 && r[0] == '-' && AllDigits(r[1..]) && DecimalValue(r[1..]) == -id.n
    ensures id.NumId? && id.n >= 0 && |r| > 1 ==> r[0] != '0'
    ensures id.NumId? && id.n < 0 && |r| > 2 ==> r[1] != '0'
    ensures id.NullId? ==> r == "null"
  {
    match id
    case StrId(s) => s
    case NumId(n) => IntToString(n)
    case NullId => "null"
  }

  /** The position of the first car satisfying `p`. */
  function FirstWhere(cars: seq<Listing>, p: Listing -> bool): (r: Option<nat>)
    ensures r.Some? ==> r.value < |cars| && p(cars[r.value])
    ensures r.Some? ==> forall j | 0 <= j < r.value :: !p(cars[j])
    ensures r.None? ==> forall j | 0 <= j < |cars| :: !p(cars[j])
  {
    if |cars| == 0 then None
    else if p(cars[0]) then Some(0)
    else match FirstWhere(cars[1..], p)
      case None => None
      case Some(i) => Some(i + 1)
  }

  /** `openCarModal(id)`: the first car whose `String(id)` is the button's
      `data-view` attribute, or nothing. */
  function ModalCar(cars: seq<Listing>, id: string): (r: Option<Listing>)
    ensures r.Some? ==> r.value in cars && IdString(r.value.id) == id
    ensures r.Some? ==> exists i | 0 <= i < |cars| ::
      cars[i] == r.value && forall j | 0 <= j < i :: IdString(cars[j].id) != id
    ensures r.None? ==> forall c | c in cars :: IdString(c.id) != id
  {
    match FirstWhere(cars, (c: Listing) => IdString(c.id) == id)
    case None => None
    case Some(i) => Some(cars[i])
  }

  /** `car.id === carId` where `carId` is the form's value, a string or
      `null` when the form has no such field. */
  predicate StrictlyEqual(id: JsId, carId: Option<string>)
  {
    match id
    case StrId(s) => carId == Some(s)
    case NullId => carId.None?
    case NumId(_) => false
  }

  /** The booking form's `carName`: `"brand model"` of the first car whose id
      is strictly equal to the selected one, else the empty string. */
  function BookingCarName(cars: seq<Listing>, carId: Option<string>): (r: string)
    ensures (forall c | c in cars :: !StrictlyEqual(c.id, carId)) ==> r == ""
    ensures (exists c | c in cars :: StrictlyEqual(c.id, carId)) ==>
      exists i | 0 <= i < |cars| ::
        && StrictlyEqual(cars[i].id, carId)
        && (forall j | 0 <= j < i :: !StrictlyEqual(cars[j].id, carId))
        && r == cars[i].brand + " " + cars[i].model
  {
    match FirstWhere(cars, (c: Listing) => StrictlyEqual(c.id, carId))
    case None => ""
    case Some(i) => cars[i].brand + " " + cars[i].model
  }

  /** When every id is text, the booking form names the car the modal would
      open for the same id. */
  lemma BookingAgreesWithModal(cars: seq<Listing>, id: string)
    requires forall c | c in cars :: c.id.StrId?
    ensures BookingCarName(cars, Some(id)) ==
      match ModalCar(cars, id) case Some(c) => c.brand + " " + c.model case None => ""
  {
    var p := (c: Listing) => IdString(c.id) == id;
    var q := (c: Listing) => StrictlyEqual(c.id, Some(id));
    assert forall j | 0 <= j < |cars| :: p(cars[j]) == q(cars[j]) by {
      forall j | 0 <= j < |cars| ensures p(cars[j]) == q(cars[j]) {
        assert cars[j] in cars;
      }
    }
    FirstWhereSame(cars, p, q);
  }

  lemma {:induction false} FirstWhereSame(cars: seq<Listing>, p: Listing -> bool, q: Listing -> bool)
    requires forall j | 0 <= j < |cars| :: p(cars[j]) == q(cars[j])
    ensures FirstWhere(cars, p) == FirstWhere(cars, q)
    decreases |cars|
  {
    if |cars| > 0 {
      FirstWhereSame(cars[1..], p, q);
    }
  }

  /** A numeric id from the static catalog file is found by the modal, which
      compares `String(id)`, but not by the booking form, which compares with
      `===`. */
  lemma NumericIdDivergence()
    ensures var cars := [Listing(NumId(7), "Ford", "Focus", 15000, None, None)];
      && ModalCar(cars, "7").Some?
      && BookingCarName(cars, Some("7")) == ""
  {
    var cars := [Listing(NumId(7), "Ford", "Focus", 15000, None, None)];
    assert IdString(cars[0].id) == "7";
  }
}
