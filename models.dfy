/**
 * Records stored in the three tables of the asset service (users, sessions,
 * assets) and the small result types shared by every layer.
 */
module Models {

  /** Go's `byte`. */
  newtype byte = b: int | 0 <= b < 256

  /** A point in time, in nanoseconds since an arbitrary epoch (the resolution of Go's time.Time). */
  type Timestamp = int

  /** Go's time.Duration: a count of nanoseconds. */
  type Duration = int

  const Second: Duration := 1_000_000_000
  const Hour: Duration := 3600 * Second

  datatype Option<+T> = None | Some(value: T)

  /** A Go `(value, error)` pair where exactly one side is meaningful. */
  datatype Result<+T, +E> = Success(value: T) | Failure(error: E)

  /** A row of `sessions`: the token (`id`), its owner, the client address and the creation time. */
  datatype Session = Session(id: string, uid: int, ipAddress: string, createdAt: Timestamp)

  /** A row of `users`. */
  datatype User = User(id: int, login: string, passwordHash: string, createdAt: Timestamp)

  /** A row of `assets`: a named blob owned by the user `uid`. */
  datatype Asset = Asset(name: string, uid: int, data: seq<byte>, createdAt: Timestamp)

  /** How a statement against the database can fail. */
  datatype DbError =
    | NoRows             // pgx.ErrNoRows: QueryRow selected nothing
    | UniqueViolation    // an INSERT clashed with a primary key or unique column
    | ConnectionFailure  // the statement did not reach the server
}
