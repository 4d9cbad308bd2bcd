/** The encrypted document store's framing (`secure_write_json`,
    `secure_read_json`): an encrypted document is `LPJS1` followed by a Fernet
    token over the UTF-8 of the JSON text. Reading is a closed dispatch on that
    prefix. File access is outside the model: a read takes the file's bytes,
    or `None` when the file does not exist, and a rewrite is returned as the
    bytes to be written. JSON itself is abstract. */
module SecureJson {
  import opened Wrappers
  import opened Crypto
  import opened Text

  /** SECURE_JSON_PREFIX, the bytes of "LPJS1". */
  const SecureJsonPrefix: Bytes := [76, 80, 74, 83, 49]

  /** `json.loads` on text (`None` when it raises) and `json.dumps`. */
  datatype JsonCodec<!J> = JsonCodec(loads: string -> Option<J>, dumps: J -> string)

  /** `secure_write_json`: the bytes that end up in the file. */
  function SecureWriteJson<J>(f: Fernet, codec: JsonCodec<J>, obj: J, nonce: Bytes): Bytes {
    SecureJsonPrefix + f.Encrypt(nonce, f.prims.utf8Encode(codec.dumps(obj)))
  }

  /** Which branch of `secure_read_json` fired. */
  datatype ReadResult<J> =
    | Absent                                // no file: the caller's default
    | Decoded(obj: J)                       // LPJS1 document, decrypted and parsed
    | Migrated(obj: J, rewrite: Bytes)      // legacy plain JSON, to be rewritten as LPJS1
    | WrongMasterPassword                   // LPJS1 document whose token does not open
    | Undecodable                           // any other failure: the caller's default

  /** `secure_read_json` on the file's content. `nonce` is the randomness of the
      rewrite of a legacy document. */
  function SecureReadJson<J>(f: Fernet, codec: JsonCodec<J>, data: Option<Bytes>, nonce: Bytes): (r: ReadResult<J>)
    ensures r.Absent? <==> data.None?
    ensures r.WrongMasterPassword? <==>
      data.Some? && StartsWith(data.value, SecureJsonPrefix) && f.Decrypt(data.value[|SecureJsonPrefix|..]).None?
    ensures r.Decoded? ==> data.Some? && StartsWith(data.value, SecureJsonPrefix)
    ensures r.Migrated? ==>
      && data.Some? && !StartsWith(data.value, SecureJsonPrefix)
      && r.rewrite == SecureWriteJson(f, codec, r.obj, nonce)
  {
    match data
    case None => Absent
    case Some(d) =>
      if StartsWith(d, SecureJsonPrefix) then
        match f.Decrypt(d[|SecureJsonPrefix|..])
        case None => WrongMasterPassword
        case Some(raw) =>
          match f.prims.utf8Decode(raw)
          case None => Undecodable
          case Some(text) =>
            match codec.loads(text)
            case None => Undecodable
            case Some(obj) => Decoded(obj)
      else
        // The text-mode fallback parses the same characters (newline translation
        // only touches whitespace JSON ignores), so one parse stands for both.
        match f.prims.utf8Decode(d)
        case None => Undecodable
        case Some(text) =>
          match codec.loads(text)
          case None => Undecodable
          case Some(obj) => Migrated(obj, SecureWriteJson(f, codec, obj, nonce))
  }

  /** What `secure_read_json` returns to its caller, or that it raises. */
  datatype Returned<J> = Value(value: J) | RaisesWrongMasterPassword

  function ReadJsonValue<J>(r: ReadResult<J>, default: J): (v: Returned<J>)
    ensures v.RaisesWrongMasterPassword? <==> r.WrongMasterPassword?
    ensures r.Absent? || r.Undecodable? ==> v == Value(default)
  {
    match r
    case Absent => Value(default)
    case Undecodable => Value(default)
    case WrongMasterPassword => RaisesWrongMasterPassword
    case Decoded(obj) => Value(obj)
    case Migrated(obj, _) => Value(obj)
  }

  /** A failed tag check on an LPJS1 document raises and is never turned into
      the default, whatever that default is. */
  lemma WrongPasswordNeverDefault<J>(f: Fernet, codec: JsonCodec<J>, d: Bytes, nonce: Bytes, default: J)
    requires StartsWith(d, SecureJsonPrefix)
    requires f.Decrypt(d[|SecureJsonPrefix|..]).None?
    ensures ReadJsonValue(SecureReadJson(f, codec, Some(d), nonce), default) == RaisesWrongMasterPassword
  {
  }

  /** Written with a key, read with the same key: the object comes back
      (for any object JSON round-trips). */
  lemma {:induction false} WriteReadRoundTrip<J>(f: Fernet, codec: JsonCodec<J>, obj: J, n1: Bytes, n2: Bytes)
    requires Sound(f.prims)
    requires codec.loads(codec.dumps(obj)) == Some(obj)
    ensures SecureReadJson(f, codec, Some(SecureWriteJson(f, codec, obj, n1)), n2) == Decoded(obj)
  {
    var d := SecureWriteJson(f, codec, obj, n1);
    var token := f.Encrypt(n1, f.prims.utf8Encode(codec.dumps(obj)));
    assert d[..|SecureJsonPrefix|] == SecureJsonPrefix;
    assert d[|SecureJsonPrefix|..] == token;
  }

  /** A legacy plain document is migrated: what gets rewritten reads back,
      through the LPJS1 branch, as the same object. */
  lemma {:induction false} MigrationReadsBack<J>(f: Fernet, codec: JsonCodec<J>, d: Bytes, n1: Bytes, n2: Bytes)
    requires Sound(f.prims)
    requires SecureReadJson(f, codec, Some(d), n1).Migrated?
    requires codec.loads(codec.dumps(SecureReadJson(f, codec, Some(d), n1).obj))
      == Some(SecureReadJson(f, codec, Some(d), n1).obj)
    ensures SecureReadJson(f, codec, Some(SecureReadJson(f, codec, Some(d), n1).rewrite), n2)
      == Decoded(SecureReadJson(f, codec, Some(d), n1).obj)
  {
    WriteReadRoundTrip(f, codec, SecureReadJson(f, codec, Some(d), n1).obj, n1, n2);
  }

  /** Plain JSON text with no prefix is migrated, never reported as a wrong password. */
  lemma PlainJsonIsMigrated<J>(f: Fernet, codec: JsonCodec<J>, d: Bytes, nonce: Bytes)
    requires !StartsWith(d, SecureJsonPrefix)
    requires f.prims.utf8Decode(d).Some? && codec.loads(f.prims.utf8Decode(d).value).Some?
    ensures SecureReadJson(f, codec, Some(d), nonce)
      == Migrated(codec.loads(f.prims.utf8Decode(d).value).value,
                  SecureWriteJson(f, codec, codec.loads(f.prims.utf8Decode(d).value).value, nonce))
  {
  }
}
