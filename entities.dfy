/**
 * The persisted account. The entity class as written has no credential
 * members, yet the service and the register mapping set PasswordHash and
 * PasswordSalt on it; the model gives the entity both, as byte sequences.
 */
module Entities {
  import opened Utf8

  /** A point in time, counted in .NET DateTime ticks; default(DateTime) is tick 0. */
  type DateTime = nat

  datatype User = User(
    id: int,
    nombre: string,
    apellido: string,
    cedula: string,
    correo: string,
    ultimoAcceso: DateTime,
    passwordHash: seq<byte>,
    passwordSalt: seq<byte>)
}
