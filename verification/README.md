# Star Wars favorites service — a Dafny model

The service is a small REST API over three catalogs (users, people, planets) and two
many-to-many favorites relations: user × person and user × planet. A user marks an item with
POST and unmarks it with DELETE. Each of these handlers is a check-then-act step on the
relation table. It looks up the exact `(user_id, item_id)` pair, then refuses with 400 or
inserts or deletes one row. The GET handlers list a catalog, look one record up by id (404
when it is absent), or list one user's favorite rows.

This model replaces the database session with an in-memory store, the class `Api.Store`:

- `users`, `people`, `planets`: catalogs, `map<int, Record>`. A `Record` is an opaque
  serialized record.
- `personFavorites`, `planetFavorites`: relation tables (`Favorites.Table`). Each holds its
  rows `(id, userId, itemId)` in storage order, plus the next primary key.

The add and delete handlers are methods that change one table (``modifies this`<table>``). Each
one is proved equal to a pure step function: `Favorites.AddFavorite` or
`Favorites.RemoveFavorite`. The contracts of those functions say which reply each branch
gives. They also say what happens to the rows, and that the invariant `TableValid` is kept:
keys are distinct and no `(user, item)` pair appears twice. Person and planet handlers share
the step functions. They differ only in the reply texts (`Responses.PersonMessages`,
`Responses.PlanetMessages`). Those texts are the Spanish strings of the source, such as
"Este personaje ya está en favoritos".

Replies are `Responses.Response<T>`: `Ok(body)` (200), `AlreadyExists(msg)` (400) or
`NotFound(msg, code)`. The code is 400 for a missing favorite and 404 for a missing catalog id.

Modules: `Responses` (responses.dfy), `Catalog` (catalog.dfy), `Favorites` (favorites.dfy),
`Api` (api.dfy), `PlanetAddAsWritten` (planet_add_as_written.dfy).

## Model

| member | source | states |
|---|---|---|
| Catalog.Listing | src/app.py:52-53 | `query.all()` then `serialize()`: one record per catalog id, the k-th record belonging to the k-th smallest id |
| Catalog.Lookup | src/app.py:59-61 | `query.get(id)`: Ok with the stored record iff the id is present, otherwise `NotFound(missing, 404)` |
| Catalog.ListingCoversCatalog | src/app.py:52-53 | every catalog record is in the listing, and every listed record is a catalog record |
| Catalog.ListingAgreesWithLookup | src/app.py:50-62 | every catalog record is in the listing and is what a lookup of its id returns; every listed record is what a lookup of some present id returns |
| Api.Store.HandleHello | src/app.py:42-46 | GET /user returns exactly `Listing(users)`: one entry per user id, in ascending id order, so a record stored under two ids appears twice; every user is listed and nothing else |
| Api.Store.GetAllPeople | src/app.py:50-54 | GET /people returns exactly `Listing(people)`: one entry per person id, in ascending id order; every person is listed and nothing else |
| Api.Store.GetPeopleById | src/app.py:57-62 | GET /people/{id} is Ok with that person iff the id is present, else 404 "No se ha encontrado el personaje" |
| Api.Store.GetAllPlanets | src/app.py:67-71 | GET /planets returns exactly `Listing(planets)`: one entry per planet id, in ascending id order; every planet is listed and nothing else |
| Api.Store.GetPlanetById | src/app.py:74-79 | GET /planet/{id} is Ok with that planet iff the id is present, else 404 "No se ha encontrado el planeta" |
| Favorites.First | src/app.py:92 | `filter_by(user, item).first()`: None iff no row holds the pair; otherwise the index of the first row that does |
| Favorites.FilterByUser | src/app.py:85-86 | a row is listed iff it is in the table and belongs to the user; the list is empty iff the user has no row, so an unknown user gets `[]`, not an error |
| Favorites.FilterConcat | src/app.py:85 | filtering keeps table order: it distributes over concatenation of tables |
| Favorites.AddFavorite | src/app.py:92-99 | an existing pair gets 400 "ya está en favoritos" and the table is unchanged; an absent pair gets 200 and exactly one row holding it is appended, earlier rows unchanged; the pair is present afterwards; uniqueness and key freshness are preserved |
| Favorites.RemoveFavorite | src/app.py:105-111 | an absent pair gets 400 "Favorito no encontrado" and the table is unchanged; a present pair gets 200 and one row holding it is deleted, the rest kept in order; no row is added; every row not holding the pair stays; in a valid table the pair is absent afterwards and validity is preserved |
| Favorites.RemoveAtValid | src/app.py:109 | deleting one row of a valid table keeps it valid and leaves no other row with that row's pair |
| Favorites.AddRemoveAddCycle | src/app.py:92-111 | add, delete, add on an absent pair all succeed; the delete restores the original rows and the second add appends the pair under the next key |
| Favorites.AddCount | src/app.py:85-99 | a user's favorites list grows by one on a successful add for that user and is unchanged otherwise (other users, or a refused add) |
| Favorites.RemoveCount | src/app.py:85-111 | a user's favorites list shrinks by one on a successful delete for that user and is unchanged otherwise |
| Api.Store.FavoritePeople | src/app.py:83-86 | GET /user/{uid}/favorite/people returns exactly `FilterByUser` of the person table: that user's rows in table order, so FilterConcat, AddCount and RemoveCount apply to it |
| Api.Store.AddFavoritePeople | src/app.py:90-99 | reply and new person table are those of `AddFavorite` with the person texts; the store stays valid; only the person-favorites table may change |
| Api.Store.DeleteFavoritePeople | src/app.py:103-111 | reply and new person table are those of `RemoveFavorite` with the person texts; the store stays valid; only the person-favorites table may change |
| Api.Store.FavoritePlanet | src/app.py:115-118 | GET /user/{uid}/favorite/planet returns exactly `FilterByUser` of the planet table: that user's rows in table order |
| Api.Store.AddFavoritePlanet | src/app.py:123-132 | as intended (see Findings): reply and new planet table are those of `AddFavorite` with the planet texts; only the planet-favorites table may change |
| Api.Store.DeleteFavoritePlanet | src/app.py:136-144 | reply and new planet table are those of `RemoveFavorite` with the planet texts; only the planet-favorites table may change |
| Api.UserOneScenario | src/app.py:90-111 | on an empty store, user 1 and person 5: add gives 200, add again 400, delete 200, delete again 400 "Favorito no encontrado", and the user's list is empty |
| PlanetAddAsWritten.AddFavoritePlanetAsWritten | src/app.py:124-128 | as written, the planet add raises NameError exactly when the pair is new; otherwise it gives 400 "Este planeta ya está en favoritos" and changes nothing |
| PlanetAddAsWritten.StepAsWritten | src/app.py:123-144 | one planet request to the handlers as written never adds a row to an empty table |
| PlanetAddAsWritten.PlanetTableStaysEmpty | src/app.py:123-144 | as written, the planet-favorites table stays empty whatever sequence of planet requests arrives |
| PlanetAddAsWritten.FirstPlanetAddRaises | src/app.py:128 | user 1 adding planet 5 to an empty table raises as written, while the intended step gives 200 "Planeta añadido a favoritos" and stores the pair |

## Left out

- Application setup is not modelled: Flask construction, `strict_slashes`, the `DATABASE_URL`
  choice with its `postgres://` rewrite, and `app.run` (src/app.py:15-28, 150-152). It is
  configuration and I/O.
- The database layer is replaced by the store's fields. Not modelled: the SQLAlchemy session
  and `commit`, migrations, CORS, the admin UI, `generate_sitemap`, and the `APIException`
  handler (src/app.py:31-38). They are foreign libraries or modules; `utils.py` and `admin.py`
  are not part of this model.
- `jsonify` and the `serialize()` of each model are not modelled. `models.py` is not part of
  this model, so catalog records are opaque `Record` values, a favorite row is serialized as
  itself, and the list handlers return sequences (always status 200).
- Route matching is not modelled: the `<int:...>` converters and the stray space in
  `<int: ...>` at src/app.py:90, 103, 123 and 136. Handlers take integer ids directly.
- Concurrency is not modelled. Two requests that both pass the existence check before either
  commits could insert a duplicate pair; the model is sequential.
- Primary keys of favorite rows are given out by a counter (`Table.nextId`) that never reuses a
  key. The database's own key allocation is not modelled.
- Catalog listings come in ascending id order. The database's row order for `query.all()` is
  unspecified, and this model fixes one order.
- Catalogs never change. Users, people and planets are created and deleted outside these
  handlers.
- No handler checks that the user or the item exists, and neither does the model. Favoriting
  an id that is absent from the catalogs succeeds.

## Findings

| source | as written | input that shows it | evidently intended | confidence | as-written member | corrected member |
|---|---|---|---|---|---|---|
| src/app.py:128 | a new planet favorite is built with the undefined name `Planet_Favoritelanet_Favorite`, so NameError is raised whenever the pair is not already stored, and no planet favorite can ever be added | user 1 adds planet 5 to an empty planet-favorites table | build a `Planet_Favorite` row as src/app.py:95 does for people, then add and commit it | high (not executed) | PlanetAddAsWritten.AddFavoritePlanetAsWritten | Api.Store.AddFavoritePlanet |
