/** The environment configuration the services read before touching the
    document store, as a record of optional strings. */
module AppwriteConfig {
  import opened Wrappers

  /** `appwriteClientError` is the message that the shared client check
      (`ensureAppwriteConfig`) throws, or None when it passes; that check
      lives in a module outside this model, so only its outcome is kept. */
  datatype Config = Config(
    appwriteClientError: Option<string>,
    horasDeclaradasCollectionId: Option<string>,
    horasObtenidasCollectionId: Option<string>)

  /** The error thrown by a configuration guard, with its message. */
  datatype ConfigurationError = ConfigurationError(message: string)

  /** JavaScript truthiness of an optional string: a missing value and the
      empty string are both falsy. */
  predicate IsSet(v: Option<string>)
  {
    v.Some? && v.value != ""
  }
}
