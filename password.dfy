/**
  The stored form of a password, as werkzeug's `generate_password_hash`
  writes it and `check_password_hash` reads it: "method$salt$digest".
  The key-derivation function itself (PBKDF2-SHA256) is a parameter `kdf`
  taking the method, the salt and the password; every result here holds
  for every such function. The salt, which werkzeug draws at random from
  letters and digits, is a parameter too.
*/
module PasswordHash {
  import Text

  type Kdf = (string, string, string) -> string

  /** The method werkzeug records for `method='pbkdf2:sha256'`, with its default iteration count. */
  const Method: string := "pbkdf2:sha256:600000"

  /** `generate_password_hash(password, method='pbkdf2:sha256')` with the salt drawn. */
  function GeneratePasswordHash(kdf: Kdf, password: string, salt: string): string
    requires '$' !in salt
  {
    Method + "$" + salt + "$" + kdf(Method, salt, password)
  }

  /**
    `check_password_hash(pwhash, password)`: split at the first two `$`
    (`pwhash.split("$", 2)`); fewer than two is a mismatch; otherwise
    recompute the digest with the stored method and salt and compare.
  */
  function CheckPasswordHash(kdf: Kdf, pwhash: string, password: string): bool {
    var i := Text.IndexOf(pwhash, '$');
    if i == |pwhash| then false
    else
      var rest := pwhash[i + 1..];
      var j := Text.IndexOf(rest, '$');
      if j == |rest| then false
      else kdf(pwhash[..i], rest[..j], password) == rest[j + 1..]
  }

  /**
    A generated hash checks against a password exactly when the password
    has the same digest under the same method and salt: the right password
    always passes, and a wrong one passes only on a digest collision.
  */
  lemma CheckGeneratedHash(kdf: Kdf, password: string, salt: string, attempt: string)
    requires '$' !in salt
    ensures CheckPasswordHash(kdf, GeneratePasswordHash(kdf, password, salt), attempt)
        <==> kdf(Method, salt, attempt) == kdf(Method, salt, password)
  {
    var h := GeneratePasswordHash(kdf, password, salt);
    var digest := kdf(Method, salt, password);
    assert '$' !in Method;
    var i := |Method|;
    assert h[..i] == Method && h[i] == '$';
    assert Text.IndexOf(h, '$') == i;
    var rest := h[i + 1..];
    assert rest == salt + "$" + digest;
    var j := |salt|;
    assert rest[..j] == salt && rest[j] == '$';
    assert Text.IndexOf(rest, '$') == j;
    assert rest[j + 1..] == digest;
  }
}
