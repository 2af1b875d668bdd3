/**
 * The data-transfer records of the API and the validation rules their
 * annotations impose: UserRegisterDTO and UserLoginDTO (the request bodies of
 * registration and login) and UserDTO (the sanitized user record returned to
 * callers and accepted by update).
 */
module Dto {
  import opened Wrappers
  import opened Entities
  import opened Validation

  /** The sanitized user record: no password, hash or salt member. UltimoAcceso is optional. */
  datatype UserDTO = UserDTO(
    id: int,
    nombre: string,
    apellido: string,
    cedula: string,
    correo: string,
    ultimoAcceso: Option<DateTime>)

  datatype UserRegisterDTO = UserRegisterDTO(
    nombre: string,
    apellido: string,
    cedula: string,
    correo: string,
    password: string)

  datatype UserLoginDTO = UserLoginDTO(correo: string, password: string)

  /**
   * The JSON property names a UserDTO is written with (camel case); UltimoAcceso
   * is left out while it is null.
   */
  function JsonPropertyNames(d: UserDTO): (names: seq<string>)
    ensures "ultimoAcceso" in names <==> d.ultimoAcceso.Some?
    ensures "id" in names && "correo" in names
  {
    ["id", "nombre", "apellido", "cedula", "correo"]
      + (if d.ultimoAcceso.Some? then ["ultimoAcceso"] else [])
  }

  // ---- the regular expressions of the annotations, as languages ----

  /** [a-zA-ZÀ-ÿ\s] */
  predicate IsNameChar(c: char) {
    IsAsciiLetter(c) || 'À' <= c <= 'ÿ' || IsWhiteSpace(c)
  }

  /** ^[a-zA-ZÀ-ÿ\s]+$ */
  predicate NamePattern(s: string) {
    |s| >= 1 && All(s, IsNameChar)
  }

  /** ^\d{6,10}$ */
  predicate CedulaPattern(s: string) {
    6 <= |s| <= 10 && All(s, IsDecimalDigit)
  }

  /** [\w\.-] */
  predicate IsLocalChar(c: char) {
    IsWordChar(c) || c == '.' || c == '-'
  }

  /** [a-zA-Z\d\.-] */
  predicate IsDomainChar(c: char) {
    IsAsciiLetter(c) || IsDecimalDigit(c) || c == '.' || c == '-'
  }

  /** `s` is L@D.T with the '@' at `at` and the '.' before T at `dot`. */
  predicate EmailSplit(s: string, at: int, dot: int) {
    && 0 < at < dot < |s| - 2
    && s[at] == '@' && s[dot] == '.'
    && All(s[..at], IsLocalChar)
    && at + 1 < dot && All(s[at + 1..dot], IsDomainChar)
    && All(s[dot + 1..], IsAsciiLetter)
  }

  /** ^[\w\.-]+@[a-zA-Z\d\.-]+\.[a-zA-Z]{2,}$ */
  predicate EmailPattern(s: string) {
    exists at, dot | 0 < at < dot < |s| :: EmailSplit(s, at, dot)
  }

  // ---- the rules of each field ----

  /** Nombre and Apellido: [Required], [StringLength(50)] and the name pattern. */
  predicate ValidPersonName(s: string) {
    Required(s) && StringLength(s, 50) && RegularExpression(s, NamePattern)
  }

  /** Cedula: [Required] and 6 to 10 digits. */
  predicate ValidCedula(s: string) {
    Required(s) && RegularExpression(s, CedulaPattern)
  }

  /** Correo: [Required], [StringLength(100)], [EmailAddress] and the e-mail pattern. */
  predicate ValidCorreo(s: string) {
    Required(s) && StringLength(s, 100) && EmailAddress(s) && RegularExpression(s, EmailPattern)
  }

  /** Password at registration: [Required] and [MinLength(6)]. */
  predicate ValidPassword(s: string) {
    Required(s) && MinLength(s, 6)
  }

  predicate ValidRegister(d: UserRegisterDTO) {
    ValidPersonName(d.nombre) && ValidPersonName(d.apellido) && ValidCedula(d.cedula)
    && ValidCorreo(d.correo) && ValidPassword(d.password)
  }

  /** Login: [Required] [EmailAddress] Correo and [Required] Password, with no length rule. */
  predicate ValidLogin(d: UserLoginDTO) {
    Required(d.correo) && EmailAddress(d.correo) && Required(d.password)
  }

  predicate ValidUserDTO(d: UserDTO) {
    ValidPersonName(d.nombre) && ValidPersonName(d.apellido) && ValidCedula(d.cedula)
    && ValidCorreo(d.correo)
  }

  // ---- what the rules amount to ----

  lemma DigitIsNotWhiteSpace(c: char)
    requires IsDecimalDigit(c)
    ensures !IsWhiteSpace(c) && c as int < 0x1_0000
  {
    var k :| 0 <= k < |DecimalDigitZeros| && DecimalDigitZeros[k] <= c as int < DecimalDigitZeros[k] + 10;
  }

  lemma LocalCharIsBmpAndNotAt(c: char)
    requires IsLocalChar(c)
    ensures c as int < 0x1_0000 && c != '@'
  {
    if IsDecimalDigit(c) {
      DigitIsNotWhiteSpace(c);
      var k :| 0 <= k < |DecimalDigitZeros| && DecimalDigitZeros[k] <= c as int < DecimalDigitZeros[k] + 10;
    }
  }

  lemma DomainCharIsBmpAndNotAt(c: char)
    requires IsDomainChar(c)
    ensures c as int < 0x1_0000 && c != '@'
  {
    if IsDecimalDigit(c) {
      LocalCharIsBmpAndNotAt(c);
    }
  }

  /** Nombre/Apellido: 1 to 50 characters of the name class, not all of them white space. */
  lemma PersonNameRule(s: string)
    ensures ValidPersonName(s) <==> 0 < |s| <= 50 && All(s, IsNameChar) && Required(s)
  {
    if All(s, IsNameChar) {
      Utf16LengthOfBmp(s);
    }
    if ValidPersonName(s) {
      assert s != [];
      Utf16LengthOfBmp(s);
    }
  }

  /** Cedula: exactly the strings of 6 to 10 decimal digits. */
  lemma CedulaRule(s: string)
    ensures ValidCedula(s) <==> 6 <= |s| <= 10 && All(s, IsDecimalDigit)
  {
    if 6 <= |s| <= 10 && All(s, IsDecimalDigit) {
      DigitIsNotWhiteSpace(s[0]);
    }
  }

  /** The e-mail pattern admits a single '@', strictly inside, and only BMP characters. */
  lemma EmailPatternShape(s: string)
    requires EmailPattern(s)
    ensures EmailAddress(s) && Required(s)
    ensures forall i :: 0 <= i < |s| ==> s[i] as int < 0x1_0000
  {
    var at, dot :| 0 < at < dot < |s| && EmailSplit(s, at, dot);
    forall i | 0 <= i < |s|
      ensures s[i] as int < 0x1_0000 && (i != at ==> s[i] != '@')
    {
      if i < at {
        assert s[..at][i] == s[i];
        LocalCharIsBmpAndNotAt(s[i]);
      } else if at < i < dot {
        assert s[at + 1..dot][i - at - 1] == s[i];
        DomainCharIsBmpAndNotAt(s[i]);
      } else if dot < i {
        assert s[dot + 1..][i - dot - 1] == s[i];
      }
    }
    SingleInnerAtPassesEmailAddress(s, at);
  }

  /** Correo: exactly the strings of at most 100 characters in the e-mail pattern. */
  lemma CorreoRule(s: string)
    ensures ValidCorreo(s) <==> EmailPattern(s) && |s| <= 100
  {
    if EmailPattern(s) {
      EmailPatternShape(s);
      Utf16LengthOfBmp(s);
    }
    if ValidCorreo(s) {
      assert s != [];
    }
  }

  /** The credentials of a valid registration also pass the login rules. */
  lemma RegisterImpliesLogin(d: UserRegisterDTO)
    requires ValidRegister(d)
    ensures ValidLogin(UserLoginDTO(d.correo, d.password))
  {
    CorreoRule(d.correo);
    EmailPatternShape(d.correo);
  }

  /** Login sets no minimum password length: a one-character password passes it but not registration. */
  lemma LoginHasNoMinimumLength()
    ensures ValidLogin(UserLoginDTO("ana@example.com", "x"))
    ensures !ValidPassword("x")
  {
    var s := "ana@example.com";
    assert s[3] == '@';
    SingleInnerAtPassesEmailAddress(s, 3);
    assert !IsWhiteSpace(s[0]);
    assert !IsWhiteSpace("x"[0]);
  }
}
