/**
 * A Balrog release blob, as far as the migration scripts read or write it.
 * JSON objects the scripts index by arbitrary names are maps; the fixed keys
 * they use become fields, and a key the scripts test for or may find missing
 * becomes an `Option`.
 */
module ReleaseBlob {
  import opened Wrappers

  /**
   * An update entry of a locale: the version it updates `from`, its
   * `hashValue` and `filesize`, and every other key with its value's JSON
   * text.  Two entries are equal exactly when the dicts are.
   */
  datatype Entry = Entry(from: string, hashValue: Option<string>, filesize: Option<nat>, others: map<string, string>)

  /** A locale: its `completes` and, when present, its `partials` */
  datatype Locale = Locale(completes: seq<Entry>, partials: Option<seq<Entry>>)

  /**
   * A platform: its `locales` when present, its `alias`, and the `OS_BOUNCER`
   * and `OS_FTP` names its download URLs are built with.
   */
  datatype Platform = Platform(
    locales: Option<map<string, Locale>>,
    alias: Option<string>,
    osBouncer: Option<string>,
    osFtp: Option<string>)

  /** `fileUrls[channel][updateType][version]`: the download URL */
  type UrlMap = map<string, string>
  type Updates = map<string, UrlMap>
  type FileUrls = map<string, Updates>

  /** The blob: `name`, `platforms`, `fileUrls`, and the what's-new `actions` and `openURL` */
  datatype Blob = Blob(
    name: string,
    platforms: map<string, Platform>,
    fileUrls: FileUrls,
    actions: Option<string>,
    openUrl: Option<string>)
}
