/** What the handlers of the favorites service send back, and the fixed texts they carry. */
module Responses {

  datatype Option<T> = None | Some(value: T)

  const StatusOk: nat := 200
  const StatusBadRequest: nat := 400
  const StatusNotFound: nat := 404

  /** A handler's reply. A missing favorite is answered with 400, a missing catalog id with 404,
      so `NotFound` carries its own status code. */
  datatype Response<T> =
    | Ok(body: T)
    | AlreadyExists(msg: string)
    | NotFound(msg: string, code: nat)
  {
    /** The HTTP status code sent with the reply. */
    function Status(): nat {
      match this
      case Ok(_) => StatusOk
      case AlreadyExists(_) => StatusBadRequest
      case NotFound(_, code) => code
    }
  }

  /** The four texts of one family of favorite handlers (people or planets). */
  datatype Messages = Messages(duplicate: string, added: string, missing: string, removed: string)

  const PersonMessages := Messages(
    "Este personaje ya está en favoritos",
    "Personaje añadido a favoritos",
    "Favorito no encontrado",
    "Personaje eliminado de favoritos")

  const PlanetMessages := Messages(
    "Este planeta ya está en favoritos",
    "Planeta añadido a favoritos",
    "Favorito no encontrado",
    "Planeta eliminado de favoritos")

  const PersonMissing := "No se ha encontrado el personaje"
  const PlanetMissing := "No se ha encontrado el planeta"
}
