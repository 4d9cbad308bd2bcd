/** The portable container format of exports and backups:
    `MAGIC ‖ kdf tag ‖ salt (16 bytes) ‖ Fernet token`, with the key derived from
    the container's own password (`_lpx_encrypt_bytes`,
    `_lpx_decrypt_bytes_or_file`, `MainWindow._lpex_encrypt_bytes`,
    `MainWindow._lpex_decrypt_file_to_bytes`). The random salt and Fernet's
    randomness are parameters; reading the container from a file is left to
    the caller. */
module Container {
  import opened Wrappers
  import opened Crypto
  import opened Text

  const Lpx1: Bytes := [76, 80, 88, 49]         // "LPX1"
  const Lpex1: Bytes := [76, 80, 69, 88, 49]    // "LPEX1"
  const Lpbk1: Bytes := [76, 80, 66, 75, 49]    // "LPBK1"
  const TagArgon: Bytes := [65]                 // "A"
  const TagPbkdf2: Bytes := [80]                // "P"
  const SaltLength := 16

  datatype ContainerError =
    | EmptyPassword     // the ValueError raised when no password is given
    | UnknownFormat     // no LPX1/LPEX1/LPBK1 magic
    | NotExportFile     // `_lpex_decrypt_file_to_bytes` on something without LPEX1
    | InvalidToken      // the token does not open: wrong password or damaged data

  /** Python's `data[lo:hi]` for non-negative bounds: clamped to the data. */
  function Slice(data: Bytes, lo: nat, hi: nat): (r: Bytes)
    requires lo <= hi
    ensures hi <= |data| ==> r == data[lo..hi]
    ensures |r| <= hi - lo
  {
    if lo >= |data| then [] else if hi >= |data| then data[lo..] else data[lo..hi]
  }

  /** The KDF tag written by this installation. */
  function WriterTag(p: Primitives): Bytes {
    if p.hasArgon2 then TagArgon else TagPbkdf2
  }

  /** The key a container's password gives under a tag: Argon2id (default costs)
      only when the tag says so and Argon2 is available. */
  function ContainerKey(p: Primitives, password: string, tag: Bytes, salt: Bytes): Bytes {
    if tag == TagArgon && p.hasArgon2 then Argon2idKey(p, password, salt, KdfDefaults)
    else Pbkdf2Key(p, password, salt)
  }

  /** The shared body of `_lpx_encrypt_bytes` and `_lpex_encrypt_bytes`. */
  function EncryptContainer(magic: Bytes, p: Primitives, raw: Bytes, password: string, salt: Bytes, nonce: Bytes)
    : (r: Result<Bytes, ContainerError>)
    requires |salt| == SaltLength
    ensures r.Err? <==> password == ""
    ensures r.Err? ==> r.error == EmptyPassword
    ensures r.Ok? ==>
      && |r.value| >= |magic| + 1 + SaltLength
      && r.value[..|magic|] == magic
      && r.value[|magic|..|magic| + 1] == WriterTag(p)
      && r.value[|magic| + 1..|magic| + 1 + SaltLength] == salt
      && r.value[|magic| + 1 + SaltLength..] == p.seal(ContainerKey(p, password, WriterTag(p), salt), nonce, raw)
  {
    if password == "" then Err(EmptyPassword)
    else
      var tag := WriterTag(p);
      var key := if p.hasArgon2 then Argon2idKey(p, password, salt, KdfDefaults) else Pbkdf2Key(p, password, salt);
      var out := magic + tag + salt + p.seal(key, nonce, raw);
      assert out[..|magic|] == magic;
      assert out[|magic|..|magic| + 1] == tag;
      assert out[|magic| + 1..|magic| + 1 + SaltLength] == salt;
      assert out[|magic| + 1 + SaltLength..] == p.seal(key, nonce, raw);
      Ok(out)
  }

  /** `_lpx_encrypt_bytes`. */
  function LpxEncryptBytes(p: Primitives, raw: Bytes, password: string, salt: Bytes, nonce: Bytes): Result<Bytes, ContainerError>
    requires |salt| == SaltLength
  {
    EncryptContainer(Lpx1, p, raw, password, salt, nonce)
  }

  /** `MainWindow._lpex_encrypt_bytes`. */
  function LpexEncryptBytes(p: Primitives, raw: Bytes, password: string, salt: Bytes, nonce: Bytes): Result<Bytes, ContainerError>
    requires |salt| == SaltLength
  {
    EncryptContainer(Lpex1, p, raw, password, salt, nonce)
  }

  /** Where the tag starts, by magic: LPX1 at 4; LPEX1 and LPBK1 at 5. */
  function MagicOffset(data: Bytes): (off: Option<nat>)
    ensures off.Some? <==> StartsWith(data, Lpx1) || StartsWith(data, Lpex1) || StartsWith(data, Lpbk1)
    ensures off == Some(4) <==> StartsWith(data, Lpx1)
  {
    if StartsWith(data, Lpx1) then Some(4)
    else if StartsWith(data, Lpex1) then Some(5)
    else if StartsWith(data, Lpbk1) then Some(5)
    else None
  }

  /** Tag, salt and token read from fixed offsets after the magic, with Python's
      clamped slicing, then the token opened with the derived key. */
  function DecodeAt(p: Primitives, data: Bytes, off: nat, password: string): Result<Bytes, ContainerError> {
    var tag := Slice(data, off, off + 1);
    var salt := Slice(data, off + 1, off + 1 + SaltLength);
    var token := Slice(data, off + 1 + SaltLength, off + 1 + SaltLength + |data|);
    match p.open(ContainerKey(p, password, tag, salt), token)
    case None => Err(InvalidToken)
    case Some(raw) => Ok(raw)
  }

  /** `_lpx_decrypt_bytes_or_file` on bytes. */
  function LpxDecryptBytes(p: Primitives, data: Bytes, password: string): (r: Result<Bytes, ContainerError>)
    ensures r == Err(UnknownFormat) <==> MagicOffset(data).None?
    ensures r.Err? ==> r.error in {UnknownFormat, InvalidToken}
  {
    match MagicOffset(data)
    case None => Err(UnknownFormat)
    case Some(off) => DecodeAt(p, data, off, password)
  }

  /** `MainWindow._lpex_decrypt_file_to_bytes` on the file's bytes: LPEX1 only. */
  function LpexDecryptFileToBytes(p: Primitives, data: Bytes, password: string): (r: Result<Bytes, ContainerError>)
    ensures r == Err(NotExportFile) <==> !StartsWith(data, Lpex1)
  {
    if !StartsWith(data, Lpex1) then Err(NotExportFile) else DecodeAt(p, data, 5, password)
  }

  /** A frame with a magic of length `|magic|` decodes at offset `|magic|` back
      to what was sealed, given the same password and an installation with the
      same Argon2 availability. */
  lemma {:induction false} DecodeFrame(p: Primitives, magic: Bytes, raw: Bytes, password: string, salt: Bytes, nonce: Bytes)
    requires Sound(p)
    requires |salt| == SaltLength && password != ""
    ensures DecodeAt(p, EncryptContainer(magic, p, raw, password, salt, nonce).value, |magic|, password) == Ok(raw)
  {
    var c := EncryptContainer(magic, p, raw, password, salt, nonce).value;
    var off := |magic|;
    var key := ContainerKey(p, password, WriterTag(p), salt);
    assert Slice(c, off, off + 1) == WriterTag(p);
    assert Slice(c, off + 1, off + 1 + SaltLength) == salt;
    assert Slice(c, off + 1 + SaltLength, off + 1 + SaltLength + |c|) == c[off + 1 + SaltLength..];
    assert p.open(key, p.seal(key, nonce, raw)) == Some(raw);
  }

  /** Container round trip: `_lpx_decrypt_bytes_or_file(_lpx_encrypt_bytes(raw, pw), pw) == raw`. */
  lemma LpxRoundTrip(p: Primitives, raw: Bytes, password: string, salt: Bytes, nonce: Bytes)
    requires Sound(p)
    requires |salt| == SaltLength && password != ""
    ensures LpxDecryptBytes(p, LpxEncryptBytes(p, raw, password, salt, nonce).value, password) == Ok(raw)
  {
    var c := LpxEncryptBytes(p, raw, password, salt, nonce).value;
    assert c[..4] == Lpx1;
    DecodeFrame(p, Lpx1, raw, password, salt, nonce);
  }

  /** An LPEX1 export reads back through both readers. */
  lemma LpexRoundTrip(p: Primitives, raw: Bytes, password: string, salt: Bytes, nonce: Bytes)
    requires Sound(p)
    requires |salt| == SaltLength && password != ""
    ensures LpexDecryptFileToBytes(p, LpexEncryptBytes(p, raw, password, salt, nonce).value, password) == Ok(raw)
    ensures LpxDecryptBytes(p, LpexEncryptBytes(p, raw, password, salt, nonce).value, password) == Ok(raw)
  {
    var c := LpexEncryptBytes(p, raw, password, salt, nonce).value;
    assert c[..5] == Lpex1;
    assert c[..4] != Lpx1 by { assert c[2] == 69; }
    DecodeFrame(p, Lpex1, raw, password, salt, nonce);
  }

  /** An LPBK1 backup framed the same way reads back through the generic reader:
      tag at offset 5, salt from 6 to 22, token after. */
  lemma LpbkRoundTrip(p: Primitives, raw: Bytes, password: string, salt: Bytes, nonce: Bytes)
    requires Sound(p)
    requires |salt| == SaltLength && password != ""
    ensures LpxDecryptBytes(p, EncryptContainer(Lpbk1, p, raw, password, salt, nonce).value, password) == Ok(raw)
  {
    var c := EncryptContainer(Lpbk1, p, raw, password, salt, nonce).value;
    assert c[..5] == Lpbk1;
    assert c[..4] != Lpx1 by { assert c[2] == 66; }
    assert c[..5] != Lpex1 by { assert c[2] == 66; }
    DecodeFrame(p, Lpbk1, raw, password, salt, nonce);
  }
}
