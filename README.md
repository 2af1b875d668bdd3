# User-account API: a verified model of its core

The repository is a small ASP.NET Web API for one entity, `User`. Accounts are
registered, log in and receive a bearer token, and are read, updated and
deleted. This project models the logic behind that API in Dafny:

- **Password hashing** (`PasswordHelper`). HMAC-SHA-512 is keyed with a fresh
  random key, and that key is stored as the salt. The password's UTF-8 bytes
  are hashed. Verification recomputes the tag and compares the byte arrays
  with an early-exit loop.
- **The generic repository** (`IRepository` / `Repository`). It stores users in
  insertion order. An identity counter assigns ids, from 1 upward. It offers
  `GetAll`, `GetById`, `GetByWhere`, `GetOneByWhere`, `Add`, and conditional
  `Update`/`Delete`, which do nothing when the id is absent.
- **The account service** (`UserService`). Each operation is a short sequence of
  steps with early returns, and each answers with a `ResponseMessage`. The
  cases modelled are:
  - a duplicate email at registration;
  - a login that fails the same way for an unknown email and for a wrong password;
  - a not-found result for update, delete and the reads.
- **The controller** (`UserController`). Every action passes the service's
  status code through. The filter action builds a predicate from four optional
  query parameters.
- **The response envelope, the AutoMapper maps and the validation annotations**
  of the DTOs. Each is written as explicit functions and predicates.

Modules, one per source component: `Utf8`, `PasswordHelper`, `Entities`,
`Responses`, `Validation`, `Dto`, `Mappings`, `Queries` (LINQ `Where` and
`FirstOrDefault`), `Repositories`, `Services`, `Controllers`, and `Scenario`.
`Scenario` is a client run of register → login → wrong login → delete → lookup,
proved from the contracts alone. `Wrappers` holds `Option`.

Environment inputs are parameters:
- The HMAC primitive (`Mac`) and the token generator are fields of the service, set by its constructor.
- The random HMAC key, `DateTime.UtcNow` and `DateTime.Now` are arguments of the operations that use them.

Decisions where the sources needed interpreting:
- The `User` entity as written (`PruebaTecnica.Domain/Entities/User.cs`) has no credential members. Yet the service and the register mapping set `PasswordHash` and `PasswordSalt`. The model's `User` carries both, as byte sequences, defaulting to empty.
- `IRepository` has a single implementation, and Dafny traits are not used here. So the interface's documented promises are stated directly on the `Repository` class. The interface declares `GetOneByWhereAsync` as non-nullable, but the implementation returns null when nothing matches. The model follows the implementation (`Option`).
- Registration succeeds with status **200 OK**: the service answers with `SuccessResponse` (`ResponseMessage.cs:14`). The controller's metadata advertises 201 Created (`UserController.cs:80`). The model follows the code.
- The comparison loop returns at the first differing byte (`PasswordHelper.cs:40`), although its doc comment (`PasswordHelper.cs:33`) says it compares "safely". No timing property is claimed.
- `CreatePasswordHash` does not reject an empty password; only registration's `[MinLength(6)]` annotation keeps passwords non-empty.
- The annotations are given the meaning .NET gives them:
  - `[Required]` rejects empty and all-white-space strings.
  - `[RegularExpression]` accepts the empty string and otherwise needs a match spanning the whole string.
  - `[StringLength]` and `[MinLength]` count UTF-16 code units.
  - `[EmailAddress]` wants exactly one `@`, neither first nor last.
  - `\d` is any Unicode decimal digit. Only those in the Basic Multilingual Plane matter, because .NET matches UTF-16 code units.
  - As a result, login requires a non-white-space password, not merely a non-empty one.
- `Map(userDTO, user)` turns a null `UltimoAcceso` into `default(DateTime)`. This is AutoMapper's nullable-to-value conversion. The only caller sets the field first.

## Model

| member | source | states |
|---|---|---|
| `Utf8.DecodeEncode` | PruebaTecnica.Application/Helpers/PasswordHelper.cs:16 | decoding the UTF-8 bytes of a password gives the password back |
| `Utf8.EncodeInjective` | PruebaTecnica.Application/Helpers/PasswordHelper.cs:16-27 | distinct passwords give distinct UTF-8 inputs to the hash |
| `PasswordHelper.CreatePasswordHash` | PruebaTecnica.Application/Helpers/PasswordHelper.cs:11-18 | the salt is the HMAC key, and the created hash verifies the password it was made from (round trip) |
| `PasswordHelper.CompareByteArrays` | PruebaTecnica.Application/Helpers/PasswordHelper.cs:35-43 | the result is true exactly when the two byte sequences are equal, and false whenever the lengths differ; the loop keeps `a[..i] == b[..i]` |
| `PasswordHelper.VerifyPassword` | PruebaTecnica.Application/Helpers/PasswordHelper.cs:23-30 | true exactly when the tag of the password's UTF-8 bytes under the stored salt equals the stored hash; false for a stored hash whose length differs from that tag |
| `PasswordHelper.WrongSizeHashNeverMatches` | PruebaTecnica.Application/Helpers/PasswordHelper.cs:25-28 | with a primitive of the 64-byte HMAC-SHA-512 tag size, a stored hash of another length never verifies |
| `PasswordHelper.OtherPasswordMatchesOnlyOnCollision` | PruebaTecnica.Application/Helpers/PasswordHelper.cs:11-30 | for any keyed hash, a credential created for one password accepts another password exactly when their UTF-8 encodings differ yet get the same tag under the key: a wrong password gets in only through an HMAC collision |
| `Responses.ResponseMessage.IsSuccess` | PruebaTecnica.Application/Common/ResponseMessage.cs:10 | success means a status from 200 to 299; it has no contract of its own: `SuccessResponse` and `ErrorResponse` state how each constructor's answer classifies |
| `Responses.SuccessResponse` | PruebaTecnica.Application/Common/ResponseMessage.cs:10-15 | status 200, so `IsSuccess`; carries the given data; message defaults to "Operación exitosa" |
| `Responses.ErrorResponse` | PruebaTecnica.Application/Common/ResponseMessage.cs:5-20 | no data (the default), the given message, status BadRequest unless another is given; `IsSuccess` exactly when that status is 2xx |
| `Dto.JsonPropertyNames` | PruebaTecnica.Application/DTO/UserDTO.cs:50-54 | `ultimoAcceso` is written exactly when it is not null |
| `Dto.PersonNameRule` | PruebaTecnica.Application/DTO/UserRegisterDTO.cs:7-23 | Nombre/Apellido (same rules in UserDTO.cs:16-28) are valid exactly when they have 1 to 50 characters, all in `[a-zA-Z]`, U+00C0–U+00FF or white space, and not all white space |
| `Dto.CedulaRule` | PruebaTecnica.Application/DTO/UserRegisterDTO.cs:30-31 | Cedula (same rule in UserDTO.cs:35-36) is valid exactly when it is 6 to 10 decimal digits |
| `Dto.CorreoRule` | PruebaTecnica.Application/DTO/UserRegisterDTO.cs:38-41 | Correo (same rules in UserDTO.cs:43-46) is valid exactly when it has the form L@D.T and at most 100 characters |
| `Dto.EmailPatternShape` | PruebaTecnica.Application/DTO/UserRegisterDTO.cs:40-41 | the L@D.T pattern implies the `[EmailAddress]` rule and `[Required]` |
| `Dto.RegisterImpliesLogin` | PruebaTecnica.Application/DTO/UserRegisterDTO.cs:38-56 | the email and password of a valid registration also pass the login rules |
| `Dto.LoginHasNoMinimumLength` | PruebaTecnica.Application/DTO/UserRegisterDTO.cs:44-56 | a one-character password is accepted at login but rejected at registration |
| `Mappings.ToUserDto` | PruebaTecnica.Application/Mappings/UserMappingProfile.cs:11 | the DTO always carries a last-access time; `ProjectionIgnoresCredentials` shows it never reads the credentials, and `MapOwnProjection`/`ProjectAfterMap` show `MapOnto` undoes it |
| `Mappings.ProjectionIgnoresCredentials` | PruebaTecnica.Application/Mappings/UserMappingProfile.cs:11 | a user's DTO does not depend on its hash or salt |
| `Mappings.ToUserDtos` | PruebaTecnica.Infrastructure/Services/UserService.cs:94 | a list of users maps to one DTO per user, in order |
| `Mappings.MapOnto` | PruebaTecnica.Application/Mappings/UserMappingProfile.cs:13-14 | mapping a DTO onto an existing user never changes its id, hash or salt |
| `Mappings.MapOwnProjection` | PruebaTecnica.Application/Mappings/UserMappingProfile.cs:11-14 | mapping a user's own DTO back onto it changes nothing |
| `Mappings.ProjectAfterMap` | PruebaTecnica.Application/Mappings/UserMappingProfile.cs:11-14 | after mapping a DTO onto a user, the user projects to that DTO with the user's own id |
| `Mappings.FromRegister` | PruebaTecnica.Application/Mappings/UserMappingProfile.cs:16-18 | the register mapping leaves the hash and salt unset |
| `Mappings.RegisterProjection` | PruebaTecnica.Application/Mappings/UserMappingProfile.cs:16-19 | the registered record carries the registration's profile fields, and UltimoAcceso is the supplied UTC time |
| `Mappings.RegisteredProfileIsValid` | PruebaTecnica.Application/DTO/UserDTO.cs:16-47 | the DTO of a validly registered user passes UserDTO's rules |
| `Queries.Filter` | PruebaTecnica.Application/Repositories/IRepository.cs:22-28 | keeps at most the input's elements, only ones that satisfy the predicate, and every one that does; order and multiplicity are stated by `FilterAppend` |
| `Queries.FilterAppend` | PruebaTecnica.Application/Repositories/IRepository.cs:22-28 | filtering a concatenation is the concatenation of the filtered parts, so matches keep their relative order and multiplicity |
| `Queries.FirstWhere` | PruebaTecnica.Application/Repositories/IRepository.cs:30-36 | returns an element that satisfies the predicate, or none exactly when no element does |
| `Queries.FirstWhereIsHeadOfFilter` | PruebaTecnica.Infrastructure/Repositories/Repository.cs:44-52 | the first match is the head of the filtered sequence |
| `Repositories.ReplaceId` | PruebaTecnica.Infrastructure/Repositories/Repository.cs:57-62 | the rows with the id take the entity's values but keep the id; all other rows are untouched |
| `Repositories.ReplaceAbsentId` | PruebaTecnica.Infrastructure/Repositories/Repository.cs:57-58 | replacing an id that no row has changes nothing |
| `Repositories.Repository.GetAll` | PruebaTecnica.Infrastructure/Repositories/Repository.cs:32-35 | in a valid store, every listed row is the row `GetById` finds for its id, and every row `GetById` finds is listed |
| `Repositories.Repository.GetById` | PruebaTecnica.Infrastructure/Repositories/Repository.cs:38-41 | returns a stored user with that id if one exists, and none exactly when no stored user has it |
| `Repositories.Repository.GetByWhere` | PruebaTecnica.Infrastructure/Repositories/Repository.cs:44-47 | exactly the stored users that satisfy the predicate |
| `Repositories.Repository.GetOneByWhere` | PruebaTecnica.Infrastructure/Repositories/Repository.cs:49-52 | the first matching user in store order; none exactly when nothing matches |
| `Repositories.Repository.Add` | PruebaTecnica.Infrastructure/Repositories/Repository.cs:13-17 | appends the entity under a fresh id, which is written back into it; earlier rows unchanged; ids stay unique |
| `Repositories.Repository.Delete` | PruebaTecnica.Infrastructure/Repositories/Repository.cs:21-29 | an absent id changes nothing; a present id removes exactly that row and keeps the others in order; afterwards no row has the id |
| `Repositories.Repository.Update` | PruebaTecnica.Infrastructure/Repositories/Repository.cs:55-63 | an absent id changes nothing; a present id gives that row the entity's values (key kept), others untouched |
| `Services.UserService.RegisterUser` | PruebaTecnica.Infrastructure/Services/UserService.cs:21-45 | a taken email gives BadRequest "El correo ya está registrado." and leaves the store unchanged. Otherwise exactly one user is appended, with the hash and salt of `CreatePasswordHash` and the counter's value as its id, the counter advances by one, the answer is 200 with its DTO, and the stored credential verifies the password. Unique emails stay unique |
| `Services.UserService.DeleteUser` | PruebaTecnica.Infrastructure/Services/UserService.cs:48-64 | absent id: NotFound, store unchanged; present id: that row removed, 200 with no data |
| `Services.UserService.GetUserById` | PruebaTecnica.Infrastructure/Services/UserService.cs:67-82 | NotFound exactly when no stored user has the id; otherwise 200 with that user's DTO |
| `Services.UserService.GetUsersByWhere` | PruebaTecnica.Infrastructure/Services/UserService.cs:85-101 | NotFound exactly when no stored user matches; otherwise 200 with one DTO per matching user, in store order |
| `Services.UserService.GetUsers` | PruebaTecnica.Infrastructure/Services/UserService.cs:104-120 | NotFound exactly when the store is empty; otherwise 200 with one DTO per stored user |
| `Services.UserService.UpdateUser` | PruebaTecnica.Infrastructure/Services/UserService.cs:123-142 | absent id: NotFound, store unchanged; present id: Nombre, Apellido, Cedula and Correo overwritten and UltimoAcceso set to the supplied time, while id, hash and salt are kept and other rows untouched |
| `Services.UserService.Login` | PruebaTecnica.Infrastructure/Services/UserService.cs:145-160 | an unknown email and a wrong password give the identical Unauthorized "Credenciales incorrectas." and change nothing. On success only that user's UltimoAcceso changes, and the data is "Bearer " followed by the token of the stamped user |
| `Controllers.MatchesFilter` | PruebaTecnica.API/Controllers/UserController.cs:64-68 | the filter expression; it has no contract of its own: `ClauseKinds`, `EmptyParameterIsAbsent`, `NoCriteriaKeepsEveryone`, `CombinedParametersIntersect` and `MoreParametersSelectFewer` state its properties |
| `Controllers.NoCriteriaKeepsEveryone` | PruebaTecnica.API/Controllers/UserController.cs:64-68 | with all four parameters null or empty, the filter keeps every stored user |
| `Controllers.EmptyParameterIsAbsent` | PruebaTecnica.API/Controllers/UserController.cs:65-68 | an empty parameter behaves exactly like an absent one |
| `Controllers.ClauseKinds` | PruebaTecnica.API/Controllers/UserController.cs:65-68 | nombre, apellido and correo match by substring; cedula by equality |
| `Controllers.CedulaIsNotSubstringMatch` | PruebaTecnica.API/Controllers/UserController.cs:67 | a cedula prefix is contained in the cedula yet does not select it |
| `Controllers.CombinedParametersIntersect` | PruebaTecnica.API/Controllers/UserController.cs:64-68 | the users selected by two sets of parameters together are those selected by each |
| `Controllers.MoreParametersSelectFewer` | PruebaTecnica.API/Controllers/UserController.cs:64-68 | giving a further parameter can only shrink the selection |
| `Controllers.UserController.GetAllUsers` | PruebaTecnica.API/Controllers/UserController.cs:26-30 | HTTP status is the response's status; NotFound exactly when the store is empty |
| `Controllers.UserController.GetUserById` | PruebaTecnica.API/Controllers/UserController.cs:32-44 | HTTP status is the response's status; NotFound (with the not-found message) exactly when no user has the id; otherwise 200 with the DTO of the stored user that has it |
| `Controllers.UserController.GetUsersByFilter` | PruebaTecnica.API/Controllers/UserController.cs:57-72 | HTTP status is the response's status; NotFound exactly when no user matches the filter; otherwise the DTOs of the filtered users |
| `Controllers.UserController.CreateUser` | PruebaTecnica.API/Controllers/UserController.cs:74-86 | HTTP status is the response's status. A taken email gives the duplicate-email BadRequest with store and counter unchanged. Otherwise the new account is appended under the counter's id, the counter advances, and the body is that account's DTO with "Usuario registrado." |
| `Controllers.UserController.Login` | PruebaTecnica.API/Controllers/UserController.cs:88-101 | HTTP status is the response's status. An unknown email or a wrong password gives the single invalid-credentials answer with the store unchanged. On success only that user's UltimoAcceso is stamped, and the body is "Bearer " followed by the token |
| `Controllers.UserController.UpdateUser` | PruebaTecnica.API/Controllers/UserController.cs:103-117 | HTTP status is the response's status. An absent id gives NotFound with the store unchanged. Otherwise that row takes the DTO's profile fields and the supplied time, keeping id and credentials, and the body is the updated user's DTO |
| `Controllers.UserController.DeleteUser` | PruebaTecnica.API/Controllers/UserController.cs:119-131 | HTTP status is the response's status. An absent id gives NotFound with the store unchanged. Otherwise exactly that row is removed, the others keep their order, and the body has no data; afterwards no row has the id |
| `Scenario.RegisterLoginDelete` | PruebaTecnica.Infrastructure/Services/UserService.cs:21-160 | the run proves, in order: register Ana → 200 with id 1 and no credential fields; login → 200 with "Bearer …"; wrong password → Unauthorized; delete → 200; lookup → NotFound |

## Left out

- HMAC-SHA-512 and the random key generator are foreign cryptographic calls. The primitive is an arbitrary function; the key is an arbitrary argument.
- TokenService.GenerateToken is not part of this model: it is an arbitrary function from `User` to string. JWT signing and validation are out of scope.
- Passwords containing lone UTF-16 surrogates cannot be expressed: Dafny characters are Unicode scalar values. .NET would encode such a surrogate as U+FFFD.
- Timing: no claim of constant-time comparison (the loop exits early).
- Program.cs (dependency injection, authentication, CORS, Swagger) is plumbing.
- EF Core behaviour is replaced by the in-memory store:
  - SQL translation of the predicates, and database collation (SQL Server compares `Correo` and `Contains` case-insensitively by default; the model compares exactly);
  - `SaveChangesAsync`;
  - the order rows come back in (the model uses insertion order).
- Repositories.Repository.Add: the store always assigns the next id. EF's explicit insertion of a non-zero key is not modelled; the service always passes 0.
- Repositories.Repository.Update: EF's exception when the entity's key differs from the id is not modelled; the key is kept. The service never passes a different key.
- The repository is modelled for its one entity type, `User`, not for every `T`.
- async/await and concurrency, including the race between the email check and the insert in registration. The model is sequential.
- Exceptions and their `InternalServerError` answers (the `catch` blocks) are left out, including the database failing.
- Column widths of the database schema (`PruebaTecnica.Infrastructure/Migrations/20250313172859_users model.cs:23-25`) are not modelled. `Correo` is `varchar(30)` there, while the annotations allow 100 characters. So a valid e-mail of 31 to 100 characters would fail in `SaveChangesAsync` and get a 500 from `RegisterUserAsync`, where the model answers 200.
- The columns are `varchar`, not `nvarchar` (same migration, lines 16, 25, 34 and 43). Characters that the validators accept but the database code page cannot hold are stored as `?`. Examples are U+3000, which `\s` admits in a name, and U+0663, which `\d` admits in a cedula. A later read then returns different text in the source than in the model.
- SQL Server ignores trailing spaces in `=`. Login looks users up by `Correo` equality (`PruebaTecnica.Infrastructure/Services/UserService.cs:147`). So a login with `"ana@example.com "`, which passes `[EmailAddress]`, finds the user in the source, while the model answers Unauthorized.
- Null strings: the model's strings are never null. `[Required]` treats null like the empty string.
- The framework's automatic 400 answer for a DTO that fails its annotations is not modelled. The annotation rules are standalone predicates.
- Validation.IsWordChar: .NET's `\w` also admits letters, marks and connector punctuation above U+00FF (other than those listed). The model treats them as non-word characters, so it rejects some e-mail local parts that .NET accepts.
- `UpdateUserAsync` also writes the current time into the caller's DTO object, even when the id is absent. The caller never reads it again.
- The `users is null` checks in `GetUsersAsync`/`GetUsersByWhereAsync` cannot succeed: the store always returns a list.
- PruebaTecnica.Application/Services/IUserService.cs holds only signatures; `UserService` covers it.
