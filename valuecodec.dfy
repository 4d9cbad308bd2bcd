/** Per-value encryption of field values and notes (`is_encrypted`,
    `encrypt_value`, `decrypt_value`, `MainWindow._try_decrypt_once`).
    Values are Python strings; `None` is `Option.None`. */
module ValueCodec {
  import opened Wrappers
  import opened Crypto

  /** `is_encrypted`: the value is a token that opens under this key. */
  predicate IsEncrypted(f: Fernet, val: string) {
    f.Decrypt(f.prims.utf8Encode(val)).Some?
  }

  /** `encrypt_value`: `None` becomes `""`; a value that already opens is returned
      as it is; anything else is sealed and the token returned as text. */
  function EncryptValue(f: Fernet, val: Option<string>, nonce: Bytes): (r: string)
    requires Sound(f.prims)
    ensures IsEncrypted(f, r)
    ensures IsEncrypted(f, val.GetOr("")) ==> r == val.GetOr("")
  {
    var v := val.GetOr("");
    if IsEncrypted(f, v) then v
    else
      var token := f.Encrypt(nonce, f.prims.utf8Encode(v));
      assert f.prims.utf8Decode(token).Some?;
      assert f.prims.utf8Encode(f.prims.utf8Decode(token).value) == token;
      f.prims.utf8Decode(token).value
  }

  /** `decrypt_value`: `None` becomes `""`; a value that does not open, or whose
      plaintext is not UTF-8, is passed through unchanged. */
  function DecryptValue(f: Fernet, val: Option<string>): (r: string)
    ensures val.None? ==> r == ""
    ensures val.Some? && !IsEncrypted(f, val.value) ==> r == val.value
  {
    match val
    case None => ""
    case Some(v) =>
      match f.Decrypt(f.prims.utf8Encode(v))
      case None => v
      case Some(plain) =>
        match f.prims.utf8Decode(plain)
        case None => v
        case Some(s) => s
  }

  /** `_try_decrypt_once`: the same answer as `decrypt_value`, plus whether
      decryption (and decoding) succeeded. */
  function TryDecryptOnce(f: Fernet, val: Option<string>): (r: (string, bool))
    ensures r.0 == DecryptValue(f, val)
    ensures r.1 ==> val.Some? && IsEncrypted(f, val.value)
    ensures !r.1 && val.Some? ==> r.0 == val.value
  {
    match val
    case None => ("", false)
    case Some(v) =>
      match f.Decrypt(f.prims.utf8Encode(v))
      case None => (v, false)
      case Some(plain) =>
        match f.prims.utf8Decode(plain)
        case None => (v, false)
        case Some(s) => (s, true)
  }

  /** Encrypting twice is encrypting once, whatever nonces are drawn. */
  lemma EncryptIdempotent(f: Fernet, val: Option<string>, n1: Bytes, n2: Bytes)
    requires Sound(f.prims)
    ensures EncryptValue(f, Some(EncryptValue(f, val, n1)), n2) == EncryptValue(f, val, n1)
  {
  }

  /** A value that was not already a token decrypts back to itself after
      `encrypt_value`. */
  lemma DecryptOfEncrypt(f: Fernet, v: string, nonce: Bytes)
    requires Sound(f.prims)
    requires !IsEncrypted(f, v)
    ensures DecryptValue(f, Some(EncryptValue(f, Some(v), nonce))) == v
  {
    var p := f.prims;
    var token := f.Encrypt(nonce, p.utf8Encode(v));
    assert p.utf8Encode(EncryptValue(f, Some(v), nonce)) == token;
    assert f.Decrypt(token) == Some(p.utf8Encode(v));
  }

  /** A value that is already a token is left as it is and reads back as its plaintext. */
  lemma DecryptOfEncryptedValue(f: Fernet, v: string, nonce: Bytes)
    requires Sound(f.prims)
    requires IsEncrypted(f, v)
    ensures DecryptValue(f, Some(EncryptValue(f, Some(v), nonce))) == DecryptValue(f, Some(v))
  {
  }
}
