/**
 The user record that the repository stores. The Go `models` package that
 declares it is not part of this model; its fields are read off the seed
 literals of internal/repository/user_repo.go.
 */
module Models {

  /** A 128-bit identifier (Go's uuid.UUID, a [16]byte compared byte by byte). */
  newtype Uuid = x: int | 0 <= x < 0x1_0000_0000_0000_0000_0000_0000_0000_0000

  /** The nil UUID, 00000000-0000-0000-0000-000000000000: the zero value of uuid.UUID. */
  const NilUuid: Uuid := 0

  /**
   An instant, kept opaque: nanoseconds since Go's zero time.Time
   (January 1, year 1, UTC), so that the zero value is Instant(0).
   */
  datatype Time = Instant(ticks: int)

  /** The zero value of Go's time.Time. */
  const ZeroTime: Time := Instant(0)

  datatype User = User(
    id: Uuid,
    firstName: string,
    lastName: string,
    email: string,
    createdAt: Time,
    updatedAt: Time)

  /** Go's `models.User{}`: every field at its zero value. */
  const ZeroUser: User := User(NilUuid, "", "", "", ZeroTime, ZeroTime)

  /** A Go `error` value; the repository never produces one. */
  datatype Error = Error(message: string)
}
