/**
 * The process-wide encryption key. Each route module reads
 * `ENCRYPTION_KEY` once when it is loaded and refuses to load (throws at
 * module level) unless the variable is set to a string of exactly 32
 * characters; the environment is a parameter here.
 */
module KeyConfig {
  import opened Wrappers

  /** The key length every route module insists on, counted in characters. */
  const KeyLength: nat := 32

  /** A key that passed the module-load guard. */
  type Key = s: string | |s| == KeyLength witness "00000000000000000000000000000000"

  /** The fallback `lib/utils.ts` uses when the variable is unset or empty. */
  const FallbackKey: string := "your-fallback-encryption-key"

  datatype ConfigError = InvalidEncryptionKey

  /**
   * The guard at the top of each route module: `!ENCRYPTION_KEY ||
   * ENCRYPTION_KEY.length !== 32` throws. An unset variable and an empty one
   * are both refused.
   */
  function LoadKey(env: Option<string>): (r: Result<Key, ConfigError>)
    ensures r.Success? <==> env.Some? && |env.value| == KeyLength
    ensures r.Success? ==> r.value == env.value
    ensures env.None? || env.value == "" ==> r == Failure(InvalidEncryptionKey)
  {
    if env.Some? && |env.value| == KeyLength then Success(env.value) else Failure(InvalidEncryptionKey)
  }

  /** `process.env.ENCRYPTION_KEY || "your-fallback-encryption-key"` in `lib/utils.ts`. */
  function UtilsKey(env: Option<string>): (key: string)
    ensures env.Some? && env.value != "" ==> key == env.value
    ensures env.None? || env.value == "" ==> key == FallbackKey
  {
    if env.Some? && env.value != "" then env.value else FallbackKey
  }

  /**
   * `lib/utils.ts` performs no length check, and its fallback has 28
   * characters: the guard of the route modules would refuse it.
   */
  lemma FallbackKeyIsRefused()
    ensures |UtilsKey(None)| == 28
    ensures LoadKey(Some(UtilsKey(None))).Failure?
  {
  }
}
