/** The library and network calls the core depends on, reduced to their results. */
module External {
  import opened Wrappers
  import opened Schemas

  /** Uninterpreted stand-ins for calls whose implementation is outside the model:
      - `isValidObjectId`: Mongoose's id-format check;
      - `hash`: `bcrypt.hash(password, 10)`;
      - `compare`: `bcrypt.compare(plain, hash)`;
      - `nameMatches`: the case-insensitive `$regex` match of a keyword against a name;
      - `geocode`: the geocoder lookup of an address, `None` when the lookup fails and
        the error is swallowed. */
  datatype Oracles = Oracles(
    isValidObjectId: Id -> bool,
    hash: string -> string,
    compare: (string, string) -> bool,
    nameMatches: (string, string) -> bool,
    geocode: string -> Option<Location>)

  /** What the bucket's bulk delete did: the promise resolved with a boolean, or it
      was rejected (the real call rejects on a storage error). */
  datatype PurgeOutcome = Resolved(ok: bool) | Rejected

  /** A signed bearer token; its only claim is the user id. Signing and expiry are
      not modelled. */
  datatype Token = Token(id: Id)
}
