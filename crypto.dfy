/** The cryptographic and encoding primitives the vault is built on, kept abstract:
    Fernet's authenticated encryption, UTF-8, the two key-derivation functions,
    the optional pepper and Base64. `Sound` lists the only facts the model
    assumes about them. */
module Crypto {
  import opened Wrappers

  newtype byte = b: int | 0 <= b < 256
  type Bytes = seq<byte>

  /** Argon2id cost parameters `{t, m, p}`. */
  datatype KdfParams = KdfParams(t: int, m: int, p: int)

  /** KDF_DEFAULTS: time cost 4, memory cost 128 MiB (in KiB), parallelism 2. */
  const KdfDefaults := KdfParams(4, 128 * 1024, 2)

  /** The environment the vault runs in.
      - `seal(key, nonce, plaintext)` is `Fernet(key).encrypt(plaintext)`; `nonce`
        stands for the random IV and the timestamp Fernet draws itself.
      - `open(key, token)` is `Fernet(key).decrypt(token)`; `None` is `InvalidToken`.
      - `argon2id(secret, salt, params)` is the Argon2id hash hashed down by SHA-256 to 32 bytes.
      - `pbkdf2(secret, salt)` is PBKDF2-HMAC-SHA256 with 300000 iterations, 32 bytes.
      - `pepper(master)` is `_mix_master_with_pepper`, which reads an environment variable.
      - `hasArgon2` is `HAS_ARGON2`, whether the Argon2 library could be imported. */
  datatype Primitives = Primitives(
    seal: (Bytes, Bytes, Bytes) -> Bytes,
    open: (Bytes, Bytes) -> Option<Bytes>,
    utf8Encode: string -> Bytes,
    utf8Decode: Bytes -> Option<string>,
    argon2id: (string, Bytes, KdfParams) -> Bytes,
    pbkdf2: (string, Bytes) -> Bytes,
    pepper: string -> string,
    b64encode: Bytes -> string,
    hasArgon2: bool)

  /** The assumptions: a token opens under the key that sealed it; UTF-8
      decoding inverts encoding (both ways); Fernet tokens are ASCII text. */
  ghost predicate Sound(p: Primitives) {
    && (forall k, n, m :: p.open(k, p.seal(k, n, m)) == Some(m))
    && (forall s :: p.utf8Decode(p.utf8Encode(s)) == Some(s))
    && (forall b :: p.utf8Decode(b).Some? ==> p.utf8Encode(p.utf8Decode(b).value) == b)
    && (forall k, n, m :: p.utf8Decode(p.seal(k, n, m)).Some?)
  }

  /** A Fernet object: the primitives bound to one 32-byte key. */
  datatype Fernet = Fernet(prims: Primitives, key: Bytes) {
    function Encrypt(nonce: Bytes, plaintext: Bytes): Bytes {
      prims.seal(key, nonce, plaintext)
    }
    function Decrypt(token: Bytes): Option<Bytes> {
      prims.open(key, token)
    }
  }

  /** `argon2id_key(master, salt)`: the pepper is mixed in before hashing. */
  function Argon2idKey(p: Primitives, master: string, salt: Bytes, params: KdfParams): Bytes {
    p.argon2id(p.pepper(master), salt, params)
  }

  /** `pbkdf2_key(master, salt)`: no pepper here; callers that want it mix it in first. */
  function Pbkdf2Key(p: Primitives, master: string, salt: Bytes): Bytes {
    p.pbkdf2(master, salt)
  }

  /** `derive_key(master, salt, prefer_argon, params)` (the PBKDF2 path mixes the pepper in itself). */
  function DeriveKey(p: Primitives, master: string, salt: Bytes, preferArgon: bool, params: KdfParams): Bytes {
    if preferArgon && p.hasArgon2 then Argon2idKey(p, master, salt, params)
    else Pbkdf2Key(p, p.pepper(master), salt)
  }

  /** `make_fernet(master, key_salt, kdf_name, params)`. */
  function MakeFernet(p: Primitives, master: string, keySalt: Bytes, kdfName: string, params: KdfParams): Fernet {
    Fernet(p, DeriveKey(p, master, keySalt, kdfName == "argon2id", params))
  }

  /** `hash_for_auth(master, auth_salt, prefer_argon, params)`: the Base64 verifier. */
  function HashForAuth(p: Primitives, master: string, authSalt: Bytes, preferArgon: bool, params: KdfParams): string {
    p.b64encode(DeriveKey(p, master, authSalt, preferArgon, params))
  }
}
