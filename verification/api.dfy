/** The resource handlers of the service over one in-memory store that stands in for the
    database session: three read-only catalogs and the two favorites tables. */
module Api {
  import opened Responses
  import opened Catalog
  import opened Favorites

  class Store {
    var users: map<int, Record>
    var people: map<int, Record>
    var planets: map<int, Record>
    var personFavorites: Table
    var planetFavorites: Table

    ghost predicate Valid()
      reads this
    {
      TableValid(personFavorites) && TableValid(planetFavorites)
    }

    /** A store over catalogs seeded elsewhere, with no favorites yet. */
    constructor (users: map<int, Record>, people: map<int, Record>, planets: map<int, Record>)
      ensures Valid()
      ensures this.users == users && this.people == people && this.planets == planets
      ensures personFavorites == EmptyTable && planetFavorites == EmptyTable
    {
      this.users := users;
      this.people := people;
      this.planets := planets;
      personFavorites := EmptyTable;
      planetFavorites := EmptyTable;
    }

    /** GET /user: every user, once each, in ascending id order. */
    function HandleHello(): (r: seq<Record>)
      reads this
      ensures |r| == |users|
      ensures forall id :: id in users ==> users[id] in r
      ensures forall x :: x in r ==> exists id :: id in users && users[id] == x
      ensures r == Listing(users)
    {
      ListingCoversCatalog(users);
      Listing(users)
    }

    /** GET /people: every person, once each, in ascending id order. */
    function GetAllPeople(): (r: seq<Record>)
      reads this
      ensures |r| == |people|
      ensures forall id :: id in people ==> people[id] in r
      ensures forall x :: x in r ==> exists id :: id in people && people[id] == x
      ensures r == Listing(people)
    {
      ListingCoversCatalog(people);
      Listing(people)
    }

    /** GET /people/{id}: the person, or 404 with its message. */
    function GetPeopleById(id: int): (r: Response<Record>)
      reads this
      ensures r.Ok? <==> id in people
      ensures r.Ok? ==> r.body == people[id]
      ensures !r.Ok? ==> r == NotFound(PersonMissing, 404)
    {
      Lookup(people, id, PersonMissing)
    }

    /** GET /planets: every planet, once each, in ascending id order. */
    function GetAllPlanets(): (r: seq<Record>)
      reads this
      ensures |r| == |planets|
      ensures forall id :: id in planets ==> planets[id] in r
      ensures forall x :: x in r ==> exists id :: id in planets && planets[id] == x
      ensures r == Listing(planets)
    {
      ListingCoversCatalog(planets);
      Listing(planets)
    }

    /** GET /planet/{id}: the planet, or 404 with its message. */
    function GetPlanetById(id: int): (r: Response<Record>)
      reads this
      ensures r.Ok? <==> id in planets
      ensures r.Ok? ==> r.body == planets[id]
      ensures !r.Ok? ==> r == NotFound(PlanetMissing, 404)
    {
      Lookup(planets, id, PlanetMissing)
    }

    /** GET /user/{uid}/favorite/people: exactly the person-favorite rows of that user. */
    function FavoritePeople(userId: int): (r: seq<FavoriteRow>)
      reads this
      ensures forall x :: x in r <==> x in personFavorites.rows && x.userId == userId
      ensures r == FilterByUser(personFavorites.rows, userId)
    {
      FilterByUser(personFavorites.rows, userId)
    }

    /** POST /user/{uid}/favorite/people/{pid}. Only the person-favorites table can change. */
    method AddFavoritePeople(userId: int, peopleId: int) returns (r: Response<string>)
      requires Valid()
      modifies this`personFavorites
      ensures Valid()
      ensures (r, personFavorites) == AddFavorite(old(personFavorites), userId, peopleId, PersonMessages)
    {
      var res := AddFavorite(personFavorites, userId, peopleId, PersonMessages);
      r, personFavorites := res.0, res.1;
    }

    /** DELETE /user/{uid}/favorite/people/{pid}. Only the person-favorites table can change. */
    method DeleteFavoritePeople(userId: int, peopleId: int) returns (r: Response<string>)
      requires Valid()
      modifies this`personFavorites
      ensures Valid()
      ensures (r, personFavorites) == RemoveFavorite(old(personFavorites), userId, peopleId, PersonMessages)
    {
      var res := RemoveFavorite(personFavorites, userId, peopleId, PersonMessages);
      r, personFavorites := res.0, res.1;
    }

    /** GET /user/{uid}/favorite/planet: exactly the planet-favorite rows of that user. */
    function FavoritePlanet(userId: int): (r: seq<FavoriteRow>)
      reads this
      ensures forall x :: x in r <==> x in planetFavorites.rows && x.userId == userId
      ensures r == FilterByUser(planetFavorites.rows, userId)
    {
      FilterByUser(planetFavorites.rows, userId)
    }

    /** POST /user/{uid}/favorite/planet/{pid}, as evidently intended: the handler's row
        constructor is misspelt (`Planet_Favoritelanet_Favorite`), which the module
        PlanetAddAsWritten models; here the row is built as for people. Only the
        planet-favorites table can change. */
    method AddFavoritePlanet(userId: int, planetId: int) returns (r: Response<string>)
      requires Valid()
      modifies this`planetFavorites
      ensures Valid()
      ensures (r, planetFavorites) == AddFavorite(old(planetFavorites), userId, planetId, PlanetMessages)
    {
      var res := AddFavorite(planetFavorites, userId, planetId, PlanetMessages);
      r, planetFavorites := res.0, res.1;
    }

    /** DELETE /user/{uid}/favorite/planet/{pid}. Only the planet-favorites table can change. */
    method DeleteFavoritePlanet(userId: int, planetId: int) returns (r: Response<string>)
      requires Valid()
      modifies this`planetFavorites
      ensures Valid()
      ensures (r, planetFavorites) == RemoveFavorite(old(planetFavorites), userId, planetId, PlanetMessages)
    {
      var res := RemoveFavorite(planetFavorites, userId, planetId, PlanetMessages);
      r, planetFavorites := res.0, res.1;
    }
  }

  /** User 1, no favorites: add person 5 (200), add it again (400, already there), delete it
      (200), delete it again (400, not found), list user 1's people favorites (empty). */
  method UserOneScenario() returns (added: Response<string>, addedAgain: Response<string>,
                                    deleted: Response<string>, deletedAgain: Response<string>,
                                    listed: seq<FavoriteRow>)
    ensures added == Ok("Personaje añadido a favoritos") && added.Status() == 200
    ensures addedAgain == AlreadyExists("Este personaje ya está en favoritos") && addedAgain.Status() == 400
    ensures deleted == Ok("Personaje eliminado de favoritos") && deleted.Status() == 200
    ensures deletedAgain == NotFound("Favorito no encontrado", 400) && deletedAgain.Status() == 400
    ensures listed == []
  {
    var store := new Store(map[], map[], map[]);
    added := store.AddFavoritePeople(1, 5);
    addedAgain := store.AddFavoritePeople(1, 5);
    deleted := store.DeleteFavoritePeople(1, 5);
    deletedAgain := store.DeleteFavoritePeople(1, 5);
    listed := store.FavoritePeople(1);
  }
}
