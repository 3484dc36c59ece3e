/** The planet add handler as its text stands: when the pair is new it calls the undefined name
    `Planet_Favoritelanet_Favorite`, so Python raises NameError before anything is added and the
    request ends in a server error. The rest of the model uses the corrected step
    `Favorites.AddFavorite` with the planet texts instead. */
module PlanetAddAsWritten {
  import opened Responses
  import opened Favorites

  /** A handler either returns a reply and the table after it, or raises. */
  datatype Outcome = Returned(response: Response<string>, table: Table) | Raised(error: string)

  const UndefinedName := "NameError: name 'Planet_Favoritelanet_Favorite' is not defined"

  /** add_favorite_planet as written: the duplicate check works; the insertion path raises. */
  function AddFavoritePlanetAsWritten(t: Table, u: int, i: int): (o: Outcome)
    ensures o.Raised? <==> !HasPair(t.rows, u, i)
    ensures o.Returned? ==> o == Returned(AlreadyExists(PlanetMessages.duplicate), t)
  {
    if First(t.rows, u, i).Some? then Returned(AlreadyExists(PlanetMessages.duplicate), t)
    else Raised(UndefinedName)
  }

  /** The planet requests a client can send. */
  datatype Request = Add(userId: int, planetId: int) | Delete(userId: int, planetId: int)

  /** The planet-favorites table after one request to the handlers as written; a request that
      raised changes nothing, since nothing was committed. */
  function StepAsWritten(t: Table, req: Request): (t': Table)
    ensures t.rows == [] ==> t'.rows == []
  {
    match req
    case Add(u, i) =>
      (match AddFavoritePlanetAsWritten(t, u, i)
       case Returned(_, t1) => t1
       case Raised(_) => t)
    case Delete(u, i) => RemoveFavorite(t, u, i, PlanetMessages).1
  }

  /** The planet-favorites table after a series of requests. */
  function RunAsWritten(t: Table, reqs: seq<Request>): Table
    decreases |reqs|
  {
    if reqs == [] then t else RunAsWritten(StepAsWritten(t, reqs[0]), reqs[1..])
  }

  /** As written, the planet-favorites table can never hold a row: starting empty, it stays
      empty whatever requests arrive. */
  lemma {:induction false} PlanetTableStaysEmpty(t: Table, reqs: seq<Request>)
    requires t.rows == []
    ensures RunAsWritten(t, reqs).rows == []
    decreases |reqs|
  {
    if reqs != [] {
      PlanetTableStaysEmpty(StepAsWritten(t, reqs[0]), reqs[1..]);
    }
  }

  /** The input that shows it: user 1 adds planet 5 to an empty table. As written the request
      raises; the corrected step answers 200 and stores the pair. */
  lemma FirstPlanetAddRaises()
    ensures AddFavoritePlanetAsWritten(EmptyTable, 1, 5) == Raised(UndefinedName)
    ensures AddFavorite(EmptyTable, 1, 5, PlanetMessages).0 == Ok("Planeta añadido a favoritos")
    ensures HasPair(AddFavorite(EmptyTable, 1, 5, PlanetMessages).1.rows, 1, 5)
  {
  }
}
