/** The AutoMapper profile's three maps, written out as functions. */
module Mappings {
  import opened Wrappers
  import opened Entities
  import opened Dto

  /** User -> UserDTO: every member the DTO has; the credentials have nowhere to go. */
  function ToUserDto(u: User): (d: UserDTO)
    ensures d.ultimoAcceso.Some?
  {
    UserDTO(u.id, u.nombre, u.apellido, u.cedula, u.correo, Some(u.ultimoAcceso))
  }

  /** List<User> -> List<UserDTO>: one DTO per user, in order. */
  function ToUserDtos(us: seq<User>): (ds: seq<UserDTO>)
    ensures |ds| == |us|
    ensures forall i :: 0 <= i < |us| ==> ds[i] == ToUserDto(us[i])
  {
    if us == [] then [] else [ToUserDto(us[0])] + ToUserDtos(us[1..])
  }

  /**
   * Map(userDTO, user): the DTO's members onto an existing user. Id is ignored,
   * the credentials have no source member, and a null UltimoAcceso becomes
   * default(DateTime).
   */
  function MapOnto(d: UserDTO, u: User): (r: User)
    ensures r.id == u.id
    ensures r.passwordHash == u.passwordHash && r.passwordSalt == u.passwordSalt
  {
    u.(nombre := d.nombre, apellido := d.apellido, cedula := d.cedula, correo := d.correo,
       ultimoAcceso := match d.ultimoAcceso case Some(t) => t case None => 0)
  }

  /**
   * UserRegisterDTO -> User: the profile members are copied, Password has no
   * destination, the hash and salt are ignored (left at their defaults) and
   * UltimoAcceso is stamped with the current UTC time.
   */
  function FromRegister(d: UserRegisterDTO, utcNow: DateTime): (u: User)
    ensures u.passwordHash == [] && u.passwordSalt == []
  {
    User(0, d.nombre, d.apellido, d.cedula, d.correo, utcNow, [], [])
  }

  /** The DTO of a user does not depend on the user's credentials. */
  lemma ProjectionIgnoresCredentials(u: User, hash: seq<Utf8.byte>, salt: seq<Utf8.byte>)
    ensures ToUserDto(u.(passwordHash := hash, passwordSalt := salt)) == ToUserDto(u)
  {
  }

  /** Mapping a user's own DTO back onto it changes nothing. */
  lemma MapOwnProjection(u: User)
    ensures MapOnto(ToUserDto(u), u) == u
  {
  }

  /** After mapping a DTO with a last-access time onto a user, the user projects to that DTO with the user's id. */
  lemma ProjectAfterMap(d: UserDTO, u: User)
    requires d.ultimoAcceso.Some?
    ensures ToUserDto(MapOnto(d, u)) == d.(id := u.id)
  {
  }

  /** The record a registration creates projects to the registration's profile, stamped with the time. */
  lemma RegisterProjection(d: UserRegisterDTO, utcNow: DateTime, id: int)
    ensures ToUserDto(FromRegister(d, utcNow).(id := id))
         == UserDTO(id, d.nombre, d.apellido, d.cedula, d.correo, Some(utcNow))
  {
  }

  /** A valid registration yields a user whose projection passes the UserDTO rules. */
  lemma RegisteredProfileIsValid(d: UserRegisterDTO, utcNow: DateTime, id: int)
    requires ValidRegister(d)
    ensures ValidUserDTO(ToUserDto(FromRegister(d, utcNow).(id := id)))
  {
  }
}
