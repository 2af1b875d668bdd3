/**
 * Password hashing and verification with a keyed hash whose random key is
 * stored as the salt (PasswordHelper in the application layer).
 * HMAC-SHA-512 (RFC 2104 over SHA-512 of FIPS 180-4, section 6.4) is taken as
 * an arbitrary deterministic function `hmac(key, message)` and the freshly
 * generated key as an arbitrary input.
 */
module PasswordHelper {
  import opened Utf8

  /** A keyed hash: key, message -> tag. */
  type Mac = (seq<byte>, seq<byte>) -> seq<byte>

  /** HMAC-SHA-512 tags are 64 bytes long. */
  const HashSize: nat := 64

  /** The primitive yields tags of the HMAC-SHA-512 size for every key and message. */
  ghost predicate HasSha512TagSize(hmac: Mac) {
    forall key, message :: |hmac(key, message)| == HashSize
  }

  /** The pair stored for an account in place of its password. */
  datatype Credential = Credential(hash: seq<byte>, salt: seq<byte>)

  /** The tag of the UTF-8 bytes of `password` under `key`. */
  function ComputeHash(hmac: Mac, key: seq<byte>, password: string): seq<byte> {
    hmac(key, Encode(password))
  }

  /** What VerifyPassword decides: the stored hash is the tag of the password under the stored salt. */
  predicate PasswordMatches(hmac: Mac, password: string, storedHash: seq<byte>, storedSalt: seq<byte>) {
    ComputeHash(hmac, storedSalt, password) == storedHash
  }

  /**
   * CreatePasswordHash: `key` is the random key the HMAC instance generated;
   * it becomes the salt, and the hash is the tag of the password under it.
   */
  function CreatePasswordHash(hmac: Mac, password: string, key: seq<byte>): (c: Credential)
    ensures c.salt == key
    ensures PasswordMatches(hmac, password, c.hash, c.salt)
  {
    Credential(ComputeHash(hmac, key, password), key)
  }

  /**
   * Compares two byte sequences: first the lengths, then byte by byte,
   * returning false at the first difference (so not in constant time).
   */
  method CompareByteArrays(a: seq<byte>, b: seq<byte>) returns (equal: bool)
    ensures |a| != |b| ==> !equal
    ensures equal <==> a == b
  {
    if |a| != |b| {
      return false;
    }
    for i := 0 to |a|
      invariant a[..i] == b[..i]
    {
      if a[i] != b[i] {
        assert a[..i + 1] != b[..i + 1];
        return false;
      }
      assert a[..i + 1] == a[..i] + [a[i]];
      assert b[..i + 1] == b[..i] + [b[i]];
    }
    assert a == a[..|a|] && b == b[..|b|];
    return true;
  }

  /** Recomputes the tag of the password under the stored salt and compares it with the stored hash. */
  method VerifyPassword(hmac: Mac, password: string, storedHash: seq<byte>, storedSalt: seq<byte>)
    returns (ok: bool)
    ensures ok <==> PasswordMatches(hmac, password, storedHash, storedSalt)
    ensures |storedHash| != |hmac(storedSalt, Encode(password))| ==> !ok
  {
    var computedHash := ComputeHash(hmac, storedSalt, password);
    ok := CompareByteArrays(computedHash, storedHash);
  }

  /** With a primitive of the HMAC-SHA-512 tag size, a stored hash of any other length never verifies. */
  lemma WrongSizeHashNeverMatches(hmac: Mac, password: string, storedHash: seq<byte>, storedSalt: seq<byte>)
    requires HasSha512TagSize(hmac)
    requires |storedHash| != HashSize
    ensures !PasswordMatches(hmac, password, storedHash, storedSalt)
  {
    assert |hmac(storedSalt, Encode(password))| == HashSize;
  }

  /**
   * A credential created for one password accepts another password exactly
   * when the two passwords' UTF-8 encodings differ and the keyed hash
   * nevertheless gives them the same tag: a wrong password gets in only
   * through an HMAC collision.
   */
  lemma OtherPasswordMatchesOnlyOnCollision(hmac: Mac, key: seq<byte>, password: string, other: string)
    requires other != password
    ensures var c := CreatePasswordHash(hmac, password, key);
            PasswordMatches(hmac, other, c.hash, c.salt)
            <==> Encode(other) != Encode(password) && hmac(key, Encode(other)) == hmac(key, Encode(password))
  {
    if Encode(other) == Encode(password) {
      EncodeInjective(other, password);
    }
  }
}
