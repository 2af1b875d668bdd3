/**
 * A client of the service: register an account, log in with the right and
 * with a wrong password, delete the account and look it up again. The
 * outcomes follow from the operations' contracts alone.
 */
module Scenario {
  import opened Wrappers
  import opened Utf8
  import opened Entities
  import opened Dto
  import opened Responses
  import opened Repositories
  import opened Services
  import opened PasswordHelper

  method RegisterLoginDelete(hmac: Mac, generateToken: User -> string, key: seq<byte>, utcNow: DateTime)
    returns (registered: ResponseMessage<UserDTO>, loggedIn: ResponseMessage<string>,
             rejected: ResponseMessage<string>, deleted: ResponseMessage<UserDTO>,
             lookedUp: ResponseMessage<UserDTO>)
    requires hmac(key, Encode("wrong1")) != hmac(key, Encode("secret1"))
    ensures registered.statusCode == OK && registered.data.Some? && registered.data.value.id == 1
    ensures registered.data.value == UserDTO(1, "Ana", "Gomez", "1234567", "ana@example.com", Some(utcNow))
    ensures loggedIn.statusCode == OK && loggedIn.data.Some? && BearerPrefix <= loggedIn.data.value
    ensures rejected == InvalidCredentialsResponse && rejected.statusCode == Unauthorized
    ensures deleted.statusCode == OK && deleted.data.None?
    ensures lookedUp.statusCode == NotFound
  {
    var repository := new Repository();
    var service := new UserService(repository, hmac, generateToken);
    var ana := UserRegisterDTO("Ana", "Gomez", "1234567", "ana@example.com", "secret1");
    registered := service.RegisterUser(ana, key, utcNow);
    loggedIn := service.Login(UserLoginDTO("ana@example.com", "secret1"), utcNow);
    rejected := service.Login(UserLoginDTO("ana@example.com", "wrong1"), utcNow);
    deleted := service.DeleteUser(1);
    lookedUp := service.GetUserById(1);
  }
}
