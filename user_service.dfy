/**
 * The account service: registration, login, update, deletion and the reads,
 * each a short sequence of store calls with early returns, answering with a
 * ResponseMessage. The current time, the random HMAC key and the token
 * generator are supplied from outside.
 */
module Services {
  import opened Wrappers
  import opened Utf8
  import opened Entities
  import opened Dto
  import opened Responses
  import opened Mappings
  import opened Queries
  import opened Repositories
  import opened PasswordHelper

  const DuplicateEmailMessage: string := "El correo ya está registrado."
  const RegisteredMessage: string := "Usuario registrado correctamente."
  const UserNotFoundMessage: string := "Usuario no encontrado."
  const DeletedMessage: string := "Usuario eliminado correctamente."
  const NoMatchesMessage: string := "No se encontraron usuarios con los criterios especificados."
  const NoUsersMessage: string := "No hay usuarios registrados."
  const UpdatedMessage: string := "Usuario actualizado correctamente."
  const InvalidCredentialsMessage: string := "Credenciales incorrectas."
  const LoginMessage: string := "Inicio de sesión exitoso"
  const BearerPrefix: string := "Bearer "

  /** The one answer to a failed login, whatever the reason. */
  const InvalidCredentialsResponse: ResponseMessage<string> :=
    ErrorResponse(InvalidCredentialsMessage, Unauthorized)

  /** The lookup condition u => u.Correo == correo. */
  function HasCorreo(correo: string): User -> bool {
    (u: User) => u.correo == correo
  }

  predicate EmailTaken(users: seq<User>, correo: string) {
    exists i :: 0 <= i < |users| && users[i].correo == correo
  }

  ghost predicate UniqueEmails(users: seq<User>) {
    forall i, j :: 0 <= i < j < |users| ==> users[i].correo != users[j].correo
  }

  /** The row a successful registration stores: the mapped profile, the new credential and the assigned id. */
  function NewAccount(hmac: Mac, dto: UserRegisterDTO, key: seq<byte>, utcNow: DateTime, id: int): User {
    var credential := CreatePasswordHash(hmac, dto.password, key);
    FromRegister(dto, utcNow).(id := id, passwordHash := credential.hash, passwordSalt := credential.salt)
  }

  class UserService {
    const repository: Repository
    /** The HMAC-SHA-512 primitive. */
    const hmac: Mac
    /** TokenService.GenerateToken. */
    const generateToken: User -> string

    constructor (repository: Repository, hmac: Mac, generateToken: User -> string)
      ensures this.repository == repository && this.hmac == hmac && this.generateToken == generateToken
    {
      this.repository := repository;
      this.hmac := hmac;
      this.generateToken := generateToken;
    }

    /**
     * RegisterUserAsync. `key` is the random key of the new HMAC instance and
     * `utcNow` the current UTC time.
     */
    method RegisterUser(dto: UserRegisterDTO, key: seq<byte>, utcNow: DateTime) returns (r: ResponseMessage<UserDTO>)
      requires repository.Valid()
      modifies repository
      ensures repository.Valid()
      ensures EmailTaken(old(repository.users), dto.correo) ==>
        && r == ErrorResponse(DuplicateEmailMessage, BadRequest)
        && repository.users == old(repository.users)
        && repository.nextId == old(repository.nextId)
      ensures !EmailTaken(old(repository.users), dto.correo) ==>
        var created := NewAccount(hmac, dto, key, utcNow, old(repository.nextId));
        && repository.users == old(repository.users) + [created]
        && repository.nextId == old(repository.nextId) + 1
        && r == SuccessResponse(Some(ToUserDto(created)), RegisteredMessage)
        && r.statusCode == OK
        && PasswordMatches(hmac, dto.password, created.passwordHash, created.passwordSalt)
      ensures UniqueEmails(old(repository.users)) ==> UniqueEmails(repository.users)
    {
      var validate := repository.GetOneByWhere(HasCorreo(dto.correo));
      if validate.Some? {
        return ErrorResponse(DuplicateEmailMessage, BadRequest);
      }
      var newUser := FromRegister(dto, utcNow);
      var credential := CreatePasswordHash(hmac, dto.password, key);
      newUser := newUser.(passwordHash := credential.hash, passwordSalt := credential.salt);
      newUser := repository.Add(newUser);
      var userDtoResponse := ToUserDto(newUser);
      return SuccessResponse(Some(userDtoResponse), RegisteredMessage);
    }

    /** DeleteUserAsync. */
    method DeleteUser(id: int) returns (r: ResponseMessage<UserDTO>)
      requires repository.Valid()
      modifies repository
      ensures repository.Valid() && repository.nextId == old(repository.nextId)
      ensures old(repository.GetById(id)).None? ==>
        r == ErrorResponse(UserNotFoundMessage, NotFound) && repository.users == old(repository.users)
      ensures old(repository.GetById(id)).Some? ==>
        && r == SuccessResponse(None, DeletedMessage)
        && exists k :: 0 <= k < |old(repository.users)| && old(repository.users)[k].id == id
                       && repository.users == old(repository.users)[..k] + old(repository.users)[k + 1..]
      ensures repository.GetById(id).None?
    {
      var user := repository.GetById(id);
      if user.None? {
        return ErrorResponse(UserNotFoundMessage, NotFound);
      }
      repository.Delete(user.value.id);
      return SuccessResponse(None, DeletedMessage);
    }

    /** GetUserByIdAsync. */
    method GetUserById(id: int) returns (r: ResponseMessage<UserDTO>)
      requires repository.Valid()
      ensures r.statusCode == NotFound <==> forall i :: 0 <= i < |repository.users| ==> repository.users[i].id != id
      ensures r.statusCode != NotFound ==>
        exists i :: 0 <= i < |repository.users| && repository.users[i].id == id
                    && r == SuccessResponse(Some(ToUserDto(repository.users[i])))
      ensures r.statusCode == NotFound ==> r == ErrorResponse(UserNotFoundMessage, NotFound)
    {
      var user := repository.GetById(id);
      if user.None? {
        return ErrorResponse(UserNotFoundMessage, NotFound);
      }
      var userDTO := ToUserDto(user.value);
      return SuccessResponse(Some(userDTO));
    }

    /** GetUsersByWhereAsync. */
    method GetUsersByWhere(condition: User -> bool) returns (r: ResponseMessage<seq<UserDTO>>)
      ensures r.statusCode == NotFound <==> forall i :: 0 <= i < |repository.users| ==> !condition(repository.users[i])
      ensures r.statusCode == NotFound ==> r == ErrorResponse(NoMatchesMessage, NotFound)
      ensures r.statusCode != NotFound ==>
        r == SuccessResponse(Some(ToUserDtos(Filter(repository.users, condition))))
    {
      var users := repository.GetByWhere(condition);
      if |users| == 0 {
        return ErrorResponse(NoMatchesMessage, NotFound);
      }
      var userDTOs := ToUserDtos(users);
      return SuccessResponse(Some(userDTOs));
    }

    /** GetUsersAsync. */
    method GetUsers() returns (r: ResponseMessage<seq<UserDTO>>)
      ensures r.statusCode == NotFound <==> repository.users == []
      ensures repository.users == [] ==> r == ErrorResponse(NoUsersMessage, NotFound)
      ensures repository.users != [] ==>
        && r == SuccessResponse(Some(ToUserDtos(repository.users)))
        && |r.data.value| == |repository.users|
    {
      var users := repository.GetAll();
      if |users| == 0 {
        return ErrorResponse(NoUsersMessage, NotFound);
      }
      var userDTOs := ToUserDtos(users);
      return SuccessResponse(Some(userDTOs));
    }

    /** UpdateUserAsync. `now` is the current local time. */
    method UpdateUser(id: int, userDTO: UserDTO, now: DateTime) returns (r: ResponseMessage<UserDTO>)
      requires repository.Valid()
      modifies repository
      ensures repository.Valid() && repository.nextId == old(repository.nextId)
      ensures old(repository.GetById(id)).None? ==>
        r == ErrorResponse(UserNotFoundMessage, NotFound) && repository.users == old(repository.users)
      ensures old(repository.GetById(id)).Some? ==>
        var updated := MapOnto(userDTO.(ultimoAcceso := Some(now)), old(repository.GetById(id)).value);
        && repository.users == ReplaceId(old(repository.users), id, updated)
        && r == SuccessResponse(Some(ToUserDto(updated)), UpdatedMessage)
      ensures forall i :: 0 <= i < |old(repository.users)| ==>
        repository.users[i] == if old(repository.users)[i].id == id
          then old(repository.users)[i].(nombre := userDTO.nombre, apellido := userDTO.apellido,
                 cedula := userDTO.cedula, correo := userDTO.correo, ultimoAcceso := now)
          else old(repository.users)[i]
    {
      var dto := userDTO.(ultimoAcceso := Some(now));
      var user := repository.GetById(id);
      if user.None? {
        return ErrorResponse(UserNotFoundMessage, NotFound);
      }
      ghost var before := repository.users;
      forall i | 0 <= i < |before| && before[i].id == id
        ensures before[i] == user.value
      {
        var j :| 0 <= j < |before| && before[j] == user.value;
        assert i == j;
      }
      var mapped := MapOnto(dto, user.value);
      repository.Update(mapped.id, mapped);
      var updatedUserDTO := ToUserDto(mapped);
      return SuccessResponse(Some(updatedUserDTO), UpdatedMessage);
    }

    /** LoginAsync. `utcNow` is the current UTC time. */
    method Login(loginDto: UserLoginDTO, utcNow: DateTime) returns (r: ResponseMessage<string>)
      requires repository.Valid()
      modifies repository
      ensures repository.Valid() && repository.nextId == old(repository.nextId)
      ensures !EmailTaken(old(repository.users), loginDto.correo) ==>
        r == InvalidCredentialsResponse && repository.users == old(repository.users)
      ensures var found := old(repository.GetOneByWhere(HasCorreo(loginDto.correo)));
        found.Some? && !PasswordMatches(hmac, loginDto.password, found.value.passwordHash, found.value.passwordSalt) ==>
        r == InvalidCredentialsResponse && repository.users == old(repository.users)
      ensures var found := old(repository.GetOneByWhere(HasCorreo(loginDto.correo)));
        found.Some? && PasswordMatches(hmac, loginDto.password, found.value.passwordHash, found.value.passwordSalt) ==>
        var stamped := found.value.(ultimoAcceso := utcNow);
        && repository.users == ReplaceId(old(repository.users), stamped.id, stamped)
        && r == SuccessResponse(Some(BearerPrefix + generateToken(stamped)), LoginMessage)
      ensures r.IsSuccess() ==> r.data.Some? && BearerPrefix <= r.data.value
    {
      var user := repository.GetOneByWhere(HasCorreo(loginDto.correo));
      var verified := false;
      if user.Some? {
        verified := VerifyPassword(hmac, loginDto.password, user.value.passwordHash, user.value.passwordSalt);
      }
      if user.None? || !verified {
        return InvalidCredentialsResponse;
      }
      var stamped := user.value.(ultimoAcceso := utcNow);
      repository.Update(stamped.id, stamped);
      var token := generateToken(stamped);
      return SuccessResponse(Some(BearerPrefix + token), LoginMessage);
    }
  }
}
