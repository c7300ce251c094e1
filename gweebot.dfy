/** The version string the bot reports about itself. */
module GweeBot {
  import opened Wrappers

  /** The version used when the package metadata carries none. */
  const DefaultVersion: string := "0.0.0+DEFAULT"

  /**
   * The bot's version: the implementation version from the package
   * metadata (passed in, since reading it is a reflective call), or the
   * default when that is absent.
   */
  function GetVersion(packageVersion: Option<string>): (v: string)
    ensures packageVersion.Some? ==> v == packageVersion.value
    ensures packageVersion.None? ==> v == "0.0.0+DEFAULT"
  {
    match packageVersion
    case Some(version) => version
    case None => DefaultVersion
  }
}
