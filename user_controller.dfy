/**
 * The HTTP controller: every action forwards to the service and answers with
 * the response's own status code; the filter action builds its predicate from
 * four optional query parameters.
 */
module Controllers {
  import opened Wrappers
  import opened Utf8
  import opened PasswordHelper
  import opened Entities
  import opened Dto
  import opened Responses
  import opened Mappings
  import opened Queries
  import opened Repositories
  import opened Services

  /** StatusCode(code, response): the status sent and the response as its body. */
  datatype ActionResult<T> = ObjectResult(statusCode: int, value: ResponseMessage<T>)

  // ---- the dynamic filter of GetUsersByFilter ----

  /** string.IsNullOrEmpty. */
  predicate IsNullOrEmpty(s: Option<string>) {
    s.None? || s.value == []
  }

  /** String.Contains: `sub` occurs in `s` at some position. */
  predicate Contains(s: string, sub: string) {
    exists i | 0 <= i <= |s| - |sub| :: sub <= s[i..]
  }

  /** The four optional query parameters. */
  datatype FilterQuery = FilterQuery(
    nombre: Option<string>,
    apellido: Option<string>,
    cedula: Option<string>,
    correo: Option<string>)

  const NoCriteria: FilterQuery := FilterQuery(None, None, None, None)

  /** The filter expression: each parameter that is null or empty is ignored; the others must all hold. */
  predicate MatchesFilter(q: FilterQuery, u: User) {
    && (IsNullOrEmpty(q.nombre) || Contains(u.nombre, q.nombre.value))
    && (IsNullOrEmpty(q.apellido) || Contains(u.apellido, q.apellido.value))
    && (IsNullOrEmpty(q.cedula) || u.cedula == q.cedula.value)
    && (IsNullOrEmpty(q.correo) || Contains(u.correo, q.correo.value))
  }

  /** The filter as the predicate handed to the service. */
  function UserFilter(q: FilterQuery): User -> bool {
    (u: User) => MatchesFilter(q, u)
  }

  /** With no parameter given, the filter keeps every stored user. */
  lemma NoCriteriaKeepsEveryone(q: FilterQuery, users: seq<User>)
    requires IsNullOrEmpty(q.nombre) && IsNullOrEmpty(q.apellido)
    requires IsNullOrEmpty(q.cedula) && IsNullOrEmpty(q.correo)
    ensures Filter(users, UserFilter(q)) == users
  {
    FilterKeepsAll(users, UserFilter(q));
  }

  /** An empty parameter behaves exactly as an absent one. */
  lemma EmptyParameterIsAbsent(q: FilterQuery, u: User)
    ensures MatchesFilter(q.(nombre := Some("")), u) == MatchesFilter(q.(nombre := None), u)
    ensures MatchesFilter(q.(apellido := Some("")), u) == MatchesFilter(q.(apellido := None), u)
    ensures MatchesFilter(q.(cedula := Some("")), u) == MatchesFilter(q.(cedula := None), u)
    ensures MatchesFilter(q.(correo := Some("")), u) == MatchesFilter(q.(correo := None), u)
  {
  }

  /** Nombre, Apellido and Correo match by substring; Cedula only by equality. */
  lemma ClauseKinds(v: string, u: User)
    requires v != ""
    ensures MatchesFilter(NoCriteria.(nombre := Some(v)), u) <==> Contains(u.nombre, v)
    ensures MatchesFilter(NoCriteria.(apellido := Some(v)), u) <==> Contains(u.apellido, v)
    ensures MatchesFilter(NoCriteria.(cedula := Some(v)), u) <==> u.cedula == v
    ensures MatchesFilter(NoCriteria.(correo := Some(v)), u) <==> Contains(u.correo, v)
  {
  }

  /** A prefix of a cedula is contained in it but does not select it. */
  lemma CedulaIsNotSubstringMatch(u: User)
    requires u.cedula == "1234567"
    ensures Contains(u.cedula, "123456")
    ensures !MatchesFilter(NoCriteria.(cedula := Some("123456")), u)
  {
    assert "123456" <= u.cedula[0..];
  }

  /** The parameter of `a` when it is given, otherwise that of `b`. */
  function Pick(a: Option<string>, b: Option<string>): Option<string> {
    if IsNullOrEmpty(a) then b else a
  }

  /** The query with the parameters of both `q1` and `q2`. */
  function Combine(q1: FilterQuery, q2: FilterQuery): FilterQuery {
    FilterQuery(Pick(q1.nombre, q2.nombre), Pick(q1.apellido, q2.apellido),
                Pick(q1.cedula, q2.cedula), Pick(q1.correo, q2.correo))
  }

  /** No parameter is given in both queries. */
  predicate Disjoint(q1: FilterQuery, q2: FilterQuery) {
    && (IsNullOrEmpty(q1.nombre) || IsNullOrEmpty(q2.nombre))
    && (IsNullOrEmpty(q1.apellido) || IsNullOrEmpty(q2.apellido))
    && (IsNullOrEmpty(q1.cedula) || IsNullOrEmpty(q2.cedula))
    && (IsNullOrEmpty(q1.correo) || IsNullOrEmpty(q2.correo))
  }

  /**
   * The users selected by two sets of parameters together are those selected
   * by both: per user, and as the stored sequence filtered by one and then the other.
   */
  lemma CombinedParametersIntersect(q1: FilterQuery, q2: FilterQuery, users: seq<User>)
    requires Disjoint(q1, q2)
    ensures forall u :: MatchesFilter(Combine(q1, q2), u) <==> MatchesFilter(q1, u) && MatchesFilter(q2, u)
    ensures Filter(users, UserFilter(Combine(q1, q2))) == Filter(Filter(users, UserFilter(q1)), UserFilter(q2))
  {
    FilterConjunction(users, UserFilter(q1), UserFilter(q2), UserFilter(Combine(q1, q2)));
  }

  /** `narrow` keeps every parameter `wide` gives, and may give more. */
  predicate Narrows(narrow: FilterQuery, wide: FilterQuery) {
    && (IsNullOrEmpty(wide.nombre) || narrow.nombre == wide.nombre)
    && (IsNullOrEmpty(wide.apellido) || narrow.apellido == wide.apellido)
    && (IsNullOrEmpty(wide.cedula) || narrow.cedula == wide.cedula)
    && (IsNullOrEmpty(wide.correo) || narrow.correo == wide.correo)
  }

  /** Giving more parameters can only shrink the selection. */
  lemma MoreParametersSelectFewer(narrow: FilterQuery, wide: FilterQuery, users: seq<User>)
    requires Narrows(narrow, wide)
    ensures |Filter(users, UserFilter(narrow))| <= |Filter(users, UserFilter(wide))|
    ensures forall u :: u in Filter(users, UserFilter(narrow)) ==> u in Filter(users, UserFilter(wide))
  {
    FilterMonotone(users, UserFilter(narrow), UserFilter(wide));
  }

  // ---- the actions ----

  class UserController {
    const service: UserService

    constructor (service: UserService)
      ensures this.service == service
    {
      this.service := service;
    }

    /** GET api/users */
    method GetAllUsers() returns (result: ActionResult<seq<UserDTO>>)
      ensures result.statusCode == result.value.statusCode
      ensures result.statusCode == NotFound <==> service.repository.users == []
      ensures result.statusCode != NotFound ==>
        result.statusCode == OK && result.value.data == Some(ToUserDtos(service.repository.users))
    {
      var response := service.GetUsers();
      return ObjectResult(response.statusCode, response);
    }

    /** GET api/users/{id} */
    method GetUserById(id: int) returns (result: ActionResult<UserDTO>)
      requires service.repository.Valid()
      ensures result.statusCode == result.value.statusCode
      ensures result.statusCode == NotFound <==>
        forall i :: 0 <= i < |service.repository.users| ==> service.repository.users[i].id != id
      ensures result.statusCode != NotFound ==> result.statusCode == OK && result.value.data.Some? && result.value.data.value.id == id
      ensures result.statusCode != NotFound ==>
        exists i :: 0 <= i < |service.repository.users| && service.repository.users[i].id == id
                    && result.value == SuccessResponse(Some(ToUserDto(service.repository.users[i])))
      ensures result.statusCode == NotFound ==> result.value == ErrorResponse(UserNotFoundMessage, NotFound)
    {
      var response := service.GetUserById(id);
      return ObjectResult(response.statusCode, response);
    }

    /** GET api/users/filter?nombre=&apellido=&cedula=&correo= */
    method GetUsersByFilter(nombre: Option<string>, apellido: Option<string>, cedula: Option<string>, correo: Option<string>)
      returns (result: ActionResult<seq<UserDTO>>)
      ensures var q := FilterQuery(nombre, apellido, cedula, correo);
        && result.statusCode == result.value.statusCode
        && (result.statusCode == NotFound <==>
              forall i :: 0 <= i < |service.repository.users| ==> !MatchesFilter(q, service.repository.users[i]))
        && (result.statusCode != NotFound ==>
              result.statusCode == OK
              && result.value.data == Some(ToUserDtos(Filter(service.repository.users, UserFilter(q)))))
    {
      var filter := UserFilter(FilterQuery(nombre, apellido, cedula, correo));
      var response := service.GetUsersByWhere(filter);
      return ObjectResult(response.statusCode, response);
    }

    /** POST api/users/register */
    method CreateUser(userDTO: UserRegisterDTO, key: seq<byte>, utcNow: DateTime) returns (result: ActionResult<UserDTO>)
      requires service.repository.Valid()
      modifies service.repository
      ensures service.repository.Valid()
      ensures result.statusCode == result.value.statusCode
      ensures result.statusCode == if EmailTaken(old(service.repository.users), userDTO.correo) then BadRequest else OK
      ensures EmailTaken(old(service.repository.users), userDTO.correo) ==>
        && result.value == ErrorResponse(DuplicateEmailMessage, BadRequest)
        && service.repository.users == old(service.repository.users)
        && service.repository.nextId == old(service.repository.nextId)
      ensures !EmailTaken(old(service.repository.users), userDTO.correo) ==>
        var created := NewAccount(service.hmac, userDTO, key, utcNow, old(service.repository.nextId));
        && service.repository.users == old(service.repository.users) + [created]
        && service.repository.nextId == old(service.repository.nextId) + 1
        && result.value == SuccessResponse(Some(ToUserDto(created)), RegisteredMessage)
    {
      var response := service.RegisterUser(userDTO, key, utcNow);
      return ObjectResult(response.statusCode, response);
    }

    /** POST api/users/login */
    method Login(loginDto: UserLoginDTO, utcNow: DateTime) returns (result: ActionResult<string>)
      requires service.repository.Valid()
      modifies service.repository
      ensures service.repository.Valid()
      ensures result.statusCode == result.value.statusCode
      ensures result.statusCode == OK || result.value == InvalidCredentialsResponse
      ensures !EmailTaken(old(service.repository.users), loginDto.correo) ==> result.statusCode == Unauthorized
      ensures service.repository.nextId == old(service.repository.nextId)
      ensures !EmailTaken(old(service.repository.users), loginDto.correo) ==>
        result.value == InvalidCredentialsResponse && service.repository.users == old(service.repository.users)
      ensures var found := old(service.repository.GetOneByWhere(HasCorreo(loginDto.correo)));
        found.Some? && !PasswordMatches(service.hmac, loginDto.password, found.value.passwordHash, found.value.passwordSalt) ==>
        result.value == InvalidCredentialsResponse && service.repository.users == old(service.repository.users)
      ensures var found := old(service.repository.GetOneByWhere(HasCorreo(loginDto.correo)));
        found.Some? && PasswordMatches(service.hmac, loginDto.password, found.value.passwordHash, found.value.passwordSalt) ==>
        var stamped := found.value.(ultimoAcceso := utcNow);
        && service.repository.users == ReplaceId(old(service.repository.users), stamped.id, stamped)
        && result.value == SuccessResponse(Some(BearerPrefix + service.generateToken(stamped)), LoginMessage)
    {
      var response := service.Login(loginDto, utcNow);
      return ObjectResult(response.statusCode, response);
    }

    /** PUT api/users/{id} */
    method UpdateUser(id: int, userDTO: UserDTO, now: DateTime) returns (result: ActionResult<UserDTO>)
      requires service.repository.Valid()
      modifies service.repository
      ensures service.repository.Valid()
      ensures result.statusCode == result.value.statusCode
      ensures result.statusCode == if old(service.repository.GetById(id)).None? then NotFound else OK
      ensures service.repository.nextId == old(service.repository.nextId)
      ensures old(service.repository.GetById(id)).None? ==>
        && result.value == ErrorResponse(UserNotFoundMessage, NotFound)
        && service.repository.users == old(service.repository.users)
      ensures old(service.repository.GetById(id)).Some? ==>
        var updated := MapOnto(userDTO.(ultimoAcceso := Some(now)), old(service.repository.GetById(id)).value);
        && service.repository.users == ReplaceId(old(service.repository.users), id, updated)
        && result.value == SuccessResponse(Some(ToUserDto(updated)), UpdatedMessage)
    {
      var response := service.UpdateUser(id, userDTO, now);
      return ObjectResult(response.statusCode, response);
    }

    /** DELETE api/users/{id} */
    method DeleteUser(id: int) returns (result: ActionResult<UserDTO>)
      requires service.repository.Valid()
      modifies service.repository
      ensures service.repository.Valid()
      ensures result.statusCode == result.value.statusCode
      ensures result.statusCode == if old(service.repository.GetById(id)).None? then NotFound else OK
      ensures service.repository.nextId == old(service.repository.nextId)
      ensures old(service.repository.GetById(id)).None? ==>
        && result.value == ErrorResponse(UserNotFoundMessage, NotFound)
        && service.repository.users == old(service.repository.users)
      ensures old(service.repository.GetById(id)).Some? ==>
        && result.value == SuccessResponse(None, DeletedMessage)
        && exists k :: 0 <= k < |old(service.repository.users)| && old(service.repository.users)[k].id == id
                       && service.repository.users == old(service.repository.users)[..k] + old(service.repository.users)[k + 1..]
      ensures service.repository.GetById(id).None?
    {
      var response := service.DeleteUser(id);
      return ObjectResult(response.statusCode, response);
    }
  }
}
