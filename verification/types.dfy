/**
 The data model shared by the configuration loader, the credential loader and
 the authentication gate of the API service.
 */
module Types {

  /** An octet of a VARBINARY column (`Vec<u8>` in the service). */
  newtype byte = b: int | 0 <= b < 256

  datatype Option<T> = None | Some(value: T)

  /** One row of the `api_tokens` table (`PiApiToken`). The key and the secret
      are raw bytes that the loader must decode as UTF-8 text. */
  datatype Token = Token(
    id: int,
    userId: int,
    keyVal: seq<byte>,
    secretVal: seq<byte>,
    permLevel: int,
    rateLimited: int)

  /** The five database settings read from the environment (`AppConfig`). */
  datatype AppConfig = AppConfig(
    dbHost: string,
    dbPort: string,
    dbName: string,
    dbUser: string,
    dbPassword: string)

  /** The process-wide credential map: public key to secret (`GLOBAL_MAP`). */
  type Cache = map<string, string>

  /** The state of the mutex guarding the credential map. A poisoned mutex
      refuses every `lock()`. */
  datatype LockState = Healthy | Poisoned

  /** UTF-8 decoding of a byte string (`String::from_utf8`): `None` when the
      bytes are not valid UTF-8. */
  type Decoder = seq<byte> -> Option<string>
}
