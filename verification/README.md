# Car catalog of the dealership site, modelled in Dafny

The site keeps its car listings in one SQLite table, `cars`, written by four
writers and read by two views:

- the admin save (`POST /api/cars`), an `INSERT … ON CONFLICT(id) DO UPDATE`;
- the admin delete (`DELETE /api/cars/:id`);
- the sync endpoint (`POST /api/cars/sync`), the save run over every car of the
  catalog file;
- the seed script (`scripts/seed_db.js`), which defaults each car with
  JavaScript `||` and writes it with `INSERT OR REPLACE`;
- the admin view (all rows) and the public view (active rows), both newest first.

The public page (`assets/js/app.js`) parses the rows it receives, then filters,
lists and looks up cars in the browser, and validates its forms. The C# API has
an `ApiResponse` type that supplies default error messages.

The model is functional. The table is a `seq<Car>` in rowid order plus a
logical clock (`Cars.Store`). SQLite lets a TEXT PRIMARY KEY hold NULL, so
rows without an id are kept too. The keyed view of the table is `Cars.Lookup`.
Every successful insert or update stamps the row it writes with the clock and
advances the clock by one; this stands in for `CURRENT_TIMESTAMP` and
`datetime('now')`. A delete stamps nothing and leaves the clock as it is.
`Cars.Valid` is the table invariant: non-null ids are unique, and
`created_at <= updated_at < clock` holds for every row. Every writer preserves it.

Modules: `Wrappers` (Option, Result), `Cars` (row types, invariant, lookup),
`CarStore` (save, delete), `CarViews` (the two reads), `CarSync`, `Seed`,
`JsStrings` (JavaScript sort order and `String(n)`), `Catalog` (app.js catalog
logic), `FormValidation` (`validateForm`), `ApiResponses`.

Three behaviours of the code worth knowing:

- The seed and the sync endpoint do not produce the same table. The seed
  applies defaults and replaces `status` and `created_at`. The sync applies no
  defaults and keeps both (`Seed.SeedVersusSync`).
- A save cannot change `status`. `POST /api/cars` never writes that column, so
  saving a body with `status: 'inactive'` leaves a new car public
  (`CarViews.SaveCannotHide`).
- Sync's `synced` counts every completed statement, failed ones included, so it
  always ends equal to the number of cars in the file. It is not a count of
  successes.

## Model

| member | source | states |
|---|---|---|
| `Cars.DataOf` | server.js:79-88 | a row can be built exactly when every NOT NULL column from `brand` to `specs` is present, and then each column holds the car's value for it |
| `Cars.IndexOf` | server.js:259 | the conflict lookup behind `ON CONFLICT(id)` (and `DELETE … WHERE id = ?` at server.js:275): the position of the first row with id `k`, or none exactly when no row has that id |
| `Cars.LookupAt` | server.js:78 | under the primary-key constraint, the row holding id `k` is the one a keyed lookup finds |
| `CarStore.Upsert` | server.js:256-263 | the upsert advances the clock and preserves the table invariant (unique ids, `created_at <= updated_at`) |
| `CarStore.Save` | server.js:252-271 | the save fails, leaving the table unchanged, exactly when a NOT NULL column is missing; on success the invariant is kept |
| `CarStore.SaveInsertsNew` | server.js:256-258 | saving a new id adds exactly one row, with status `'active'` and `created_at = updated_at = now`; earlier rows and all other keys are unchanged |
| `CarStore.SaveUpdatesExisting` | server.js:259-261 | saving an existing id overwrites `brand`…`specs` and refreshes `updated_at`; `status` and `created_at` are kept; the row count is unchanged and no other row changes |
| `CarStore.SaveTwice` | server.js:256-263 | saving the same keyed payload twice gives the same table as saving it once, except for `updated_at` |
| `CarStore.SaveWithoutIdAppends` | server.js:78 | a save without an id never conflicts: each one appends the row `(NULL, data, 'active', now, now)` behind the existing rows, and no keyed lookup changes |
| `CarStore.Without` | server.js:275 | the rows without id `k`: every other row is kept; one row fewer when `k` was present; unchanged when it was absent; uniqueness kept |
| `CarStore.Delete` | server.js:273-281 | after the delete no row has that id; the clock and the invariant are kept |
| `CarStore.DeleteRemovesOnly` | server.js:275-279 | the delete removes one row if the id was present and none otherwise; every other key finds the same row |
| `CarStore.DeleteIdempotent` | server.js:275-279 | deleting an absent id leaves the store unchanged, so deleting twice is the same as deleting once |
| `CarViews.InsertNewestFirst` | server.js:234 | inserting a row into a newest-first list keeps it newest first and adds exactly that row |
| `CarViews.SortNewestFirst` | server.js:234 | `ORDER BY created_at DESC` gives a newest-first permutation of its input |
| `CarViews.ActiveOnly` | server.js:244 | `WHERE status = 'active'` keeps every active row with its multiplicity, drops all others, and keeps a newest-first list newest first |
| `CarViews.AdminView` | server.js:232-240 | the admin view is every stored row, newest first |
| `CarViews.PublicView` | server.js:242-250 | the public view is exactly the active rows, newest first |
| `CarViews.PublicIsActiveAdmin` | server.js:234-244 | the public view holds the same rows as the admin view filtered to active rows, and that filtered list is still newest first |
| `CarViews.VisibilitySplit` | server.js:243-244 | a stored row is always in the admin view, and it is in the public view exactly when its status is `'active'` |
| `CarViews.SaveCannotHide` | server.js:254-263 | the save ignores the body's `status`, so a newly saved car always appears in the public view |
| `CarSync.SyncOne` | server.js:315-326 | one sync statement keeps the invariant; a statement whose car lacks a NOT NULL column leaves the table as it was, and any other gives exactly the table of the admin save |
| `CarSync.SyncAll` | server.js:314-327 | running the file's statements in order keeps the invariant |
| `CarSync.Sync` | server.js:312-327 | the `forEach` loop ends with `synced` equal to the number of cars in the file, and with the table that running each statement in order gives |
| `CarSync.SyncOneAt` | server.js:315-325 | one statement changes only the key it names, overwrites that key's data on success, never drops a row, and never changes a row's status or `created_at` |
| `CarSync.SyncLeavesOthers` | server.js:314-327 | rows whose ids are not in the file are untouched (no pruning) |
| `CarSync.SyncKeepsStatus` | server.js:318-320 | sync never removes a row or changes its status or `created_at`; rows it creates are `'active'` |
| `CarSync.SyncLastWins` | server.js:314-327 | when an id occurs several times in the file, the row ends with the data of its last occurrence, provided that statement succeeds |
| `Seed.OrNumber` | scripts/seed_db.js:43-45 | the JavaScript logical-or default on a number: a value other than 0 is kept; 0 and absent give `d` |
| `Seed.OrString` | scripts/seed_db.js:46-48 | the JavaScript logical-or default on a string: a non-empty value is kept; `''` and absent give `d` |
| `Seed.Defaults` | scripts/seed_db.js:40-51 | `id`, `brand` and `model` get no default; year/price/mileage default to 0, fuel/transmission/color to `''`, images to `[]`, specs to `{}`, status to `'active'` |
| `Seed.DefaultsIdempotent` | scripts/seed_db.js:43-51 | defaulting gives a fully defaulted car, leaves a defaulted car unchanged, and so applying it twice is the same as once |
| `Seed.SeedRow` | scripts/seed_db.js:35-52 | the seed row exists exactly when brand and model are present; it carries the defaulted data and status, with both timestamps set to now |
| `Seed.Replace` | scripts/seed_db.js:35 | `INSERT OR REPLACE` advances the clock, keeps the invariant, and leaves the kept rows followed by the new row |
| `Seed.ReplaceAppends` | scripts/seed_db.js:35 | the new row is always written, as the last row; with a NULL id nothing conflicts, so the table grows by exactly that row |
| `Seed.ReplaceAt` | scripts/seed_db.js:35 | after the replace, the new row is found under its id, and every other key finds the same row as before |
| `Seed.SeedAll` | scripts/seed_db.js:38-54 | the seed loop keeps the invariant; an abort names the first car lacking a brand or model, every car before it names both, a complete run means every car names both, and an aborted run leaves the table the cars before it wrote |
| `Seed.SeedDb` | scripts/seed_db.js:37-57 | `count` ends equal to the length of the JSON array, and the table is the one the statements produce in order |
| `Seed.SeedCompletes` | scripts/seed_db.js:38-54 | the seed finishes exactly when every car names a brand and a model |
| `Seed.SeedLeavesOthers` | scripts/seed_db.js:38-54 | rows whose ids are not in the file are untouched, however the run ends (no pruning) |
| `Seed.SeedLastWins` | scripts/seed_db.js:38-54 | when every file car names a brand and a model (so the seed completes), each file id's row is the defaulted car of its last occurrence, status included, with `created_at = updated_at` set by the seed |
| `Seed.SeedVersusSync` | scripts/seed_db.js:35-51 | on an existing row, sync keeps status and `created_at` while the seed replaces both; they differ for a non-active row whose file car has no status |
| `JsStrings.InsertAscending` | assets/js/app.js:65 | adding a string to an ascending, duplicate-free list keeps it ascending and adds exactly that string |
| `JsStrings.SortedDistinct` | assets/js/app.js:65-66 | `Array.from(new Set(xs)).sort()` is strictly ascending and holds exactly the values of `xs` |
| `JsStrings.IntToString` | assets/js/app.js:196 | `String(n)` of an integer starts with `-` exactly when `n` is negative, and the remaining characters are decimal digits, with no leading zero, denoting the magnitude of `n` |
| `JsStrings.NatToDecimal` | assets/js/app.js:196 | the digits of a natural number, with no leading zero, denote that number |
| `JsStrings.IntToStringInjective` | assets/js/app.js:196 | two integers with the same `String(n)` are equal |
| `Catalog.Parse` | assets/js/app.js:37-38 | a field that is JSON text is parsed, a parsed field is left as it is, and the value is preserved either way |
| `Catalog.Normalise` | assets/js/app.js:35-39 | after normalisation no images/specs field is JSON text; the decoded values and all other fields are unchanged |
| `Catalog.NormaliseIdempotent` | assets/js/app.js:35-39 | already-parsed cars are unchanged, so normalising twice is the same as normalising once |
| `Catalog.RowRoundTrip` | assets/js/app.js:31-39 | a public row serialised by the server and parsed by `loadCars` gives back the images and specs it was saved with |
| `Catalog.Filtered` | assets/js/app.js:115-120 | the grid shows exactly the cars satisfying the brand, model and price conditions, each as often as it occurs, in their original order |
| `Catalog.FilterMonotone` | assets/js/app.js:116-118 | lowering the price bound or fixing a brand or model only removes cars from the grid |
| `Catalog.MaxPrice` | assets/js/app.js:71 | the price bound is at least every car's price and equal to some car's price |
| `Catalog.SliderStart` | assets/js/app.js:73 | the slider starts at the smaller of 200000 and the data maximum |
| `Catalog.ResetFilters` | assets/js/app.js:97-98 | a reset clears the brand and model and sets the bound to the largest price in the data, the slider's maximum |
| `Catalog.ResetShowsAll` | assets/js/app.js:97-104 | after a reset every car is shown, in its order |
| `Catalog.InitialHidesExpensive` | assets/js/app.js:1-4 | until a filter changes, a car priced above 200000 is hidden; after a reset it is shown |
| `Catalog.BrandOptions` | assets/js/app.js:65 | the brand list is ascending and duplicate-free, each entry is some car's brand, and every car's brand is listed |
| `Catalog.ModelOptions` | assets/js/app.js:66 | the model list is ascending and duplicate-free, each entry is some car's model, and every car's model is listed |
| `Catalog.BrandOptionSelects` | assets/js/app.js:115-117 | with a listed brand or "All" (`''`), a car is shown exactly when it is in the data, has that brand (or any brand for "All"), and passes the model and price conditions |
| `Catalog.Thumbnail` | assets/js/app.js:133-139 | the thumbnail is never empty; absent images give the fallback; a non-empty first parsed image is the thumbnail itself; for parsed images it is the fallback exactly when there is no non-empty first image, or when the first image is the fallback path |
| `Catalog.RowThumbnail` | assets/js/app.js:133-139 | a card built from an API row shows the row's first image when it is non-empty, otherwise the fallback |
| `Catalog.IdString` | assets/js/app.js:196 | `String(id)` is the text itself for a text id, for a number an optional `-` followed by digits, with no leading zero, whose decimal value is its magnitude, and `"null"` for null |
| `Catalog.ModalCar` | assets/js/app.js:195-197 | the modal gets the first car whose `String(id)` matches, or nothing when no car matches |
| `Catalog.BookingCarName` | assets/js/app.js:319-321 | `carName` is `"brand model"` of the first car whose id is `===` to the selected id, else `''` |
| `Catalog.BookingAgreesWithModal` | assets/js/app.js:320-321 | when every id is text, the booking form names the same car the modal would open |
| `Catalog.NumericIdDivergence` | assets/js/app.js:196 | a numeric id is found by the modal (`String` comparison) but not by the booking form (`===`) |
| `FormValidation.TestEmail` | assets/js/app.js:251 | the scan returns true exactly when `.+@.+\..+` matches somewhere in the value, with no line terminator inside the match |
| `FormValidation.ValidateForm` | assets/js/app.js:243-259 | the form is valid exactly when no required field is empty or a non-matching email; each required field gets the error text exactly when it is invalid, otherwise an empty message; other fields' error text is not touched |
| `FormValidation.EmailSamples` | assets/js/app.js:251 | `a@b.c` matches; `a@.c` and `a@b.` do not |
| `ApiResponses.DefaultMessage` | API/Errors/ApiResponse.cs:18-28 | a default message exists exactly for codes 400, 401, 404 and 500 |
| `ApiResponses.NewApiResponse` | API/Errors/ApiResponse.cs:7-11 | the code is stored unchanged; a non-null message is kept verbatim; a null message becomes the default for 400/401/404/500 and stays null for other codes |
| `ApiResponses.DefaultTexts` | API/Errors/ApiResponse.cs:20-25 | the four default texts, each tied to its code, all distinct |

## Left out

- HTTP wiring is left out: Express routing, CORS, static serving, response shaping, authentication (JWT, bcrypt, the auth middleware, default-admin creation), and multer uploads with random file names. These are I/O, cryptography or randomness.
- The bookings and contacts endpoints and the dashboard counts are left out. They are pass-through inserts and updates, not catalog logic.
- Statement failures other than a missing NOT NULL column are left out: disk errors, locking, and type-affinity conversions. So are the 500 responses those failures cause.
- Timing is left out: the 500 ms `setTimeout` that replies to a sync request, and the interleaving of concurrent requests. Sync is modelled by its final table and final counter.
- JSON encoding and decoding are taken as the identity. A structured value stored or sent as text carries the value it encodes.
- CarStore.Save: a body whose `images` or `specs` is an explicit JSON `null` is treated like an absent field (rejected). `JSON.stringify(null)` is the text `"null"`, which the real column would accept.
- Seed.SeedAll: a row missing brand or model is modelled as ending the run at that car, with earlier rows written. This is because its statement has no error callback, so the error is unhandled. Whether statements already queued behind it still execute is not modelled.
- CarSync.SyncLastWins: the sync statements are issued outside `db.serialize`, so SQLite does not promise to run them in file order. The model assumes file order, so the last occurrence of an id wins. `CarSync.SyncAll` and `CarSync.Sync` make the same assumption.
- JsStrings.IntToString: gives plain decimal digits for every integer. JavaScript `String(n)` switches to exponent form (`1e+21`) once the magnitude reaches 10^21, and numbers are floating point; neither is modelled. The same holds for the numeric case of `Catalog.IdString`.
- Seed.OrNumber: only the absent value and 0 are falsy here. `NaN`, `false` and other non-number values are not modelled. The same goes for Seed.OrString and the empty string.
- Catalog.MaxPrice: needs a non-empty car list. `Math.max()` of nothing is `-Infinity`, a floating-point value that is not modelled. Prices are integers, and slider coercion through `Number(...)` is not modelled.
- JsStrings.SortedDistinct: sorting compares characters as Unicode scalar values. JavaScript compares UTF-16 code units, and the two orders differ only between astral characters and BMP characters above U+D7FF.
- Catalog.Listing: keeps only the fields the page logic reads. Year, mileage, fuel, transmission and colour are only rendered.
- Rendering and browser effects are left out: DOM building, `toLocaleString`, the modal and navigation, animations, scroll handling, IntersectionObserver, timers, and the fetch fallback to the static file. `Catalog` covers the data only.
- FormValidation.ValidateForm: returns the text each field's error element receives, `None` for fields the loop skips. It does not model the DOM lookup of the error element, which may be missing.
- The C# `int` status code is modelled as an unbounded integer. The constructor stores it without arithmetic, so width does not matter.
