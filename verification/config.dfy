/** The declarative descriptor of one remote service and the persisted
    configuration that holds the uploader and shortener descriptors
    (config.go, `SiteConfig`, `Config`, `DefaultConfig`). */
module Config {

  /** One upload or shortening endpoint, described purely by data. */
  datatype SiteConfig = SiteConfig(
    name: string,
    requestURL: string,
    requestType: string,
    fileFormName: string,            // "" when the descriptor gives none
    responseType: string,            // informational tag only
    regexps: map<string, string>,    // "url" -> extraction pattern
    headers: map<string, string>,
    arguments: map<string, string>)

  datatype Config = Config(
    defaultFileUpload: string,
    defaultImageUpload: string,
    defaultURLShortener: string,
    historyPath: string,
    saveDir: string,
    organized: bool,
    uploaders: map<string, SiteConfig>,
    shorteners: map<string, SiteConfig>)

  /** A Go map read: the zero value "" for a missing key. */
  function Lookup(m: map<string, string>, key: string): string
  {
    if key in m then m[key] else ""
  }

  /** The only extraction pattern the program writes itself: a JSON string
      member `"key":"…"`, captured lazily up to the next double quote. */
  function KeyPattern(key: string): string
  {
    "\"" + key + "\":\"(.+?)\""
  }

  const ImgurName: string := "imgur"

  const ImgurDescriptor: SiteConfig := SiteConfig(
    name := "Imgur",
    requestURL := "https://api.imgur.com/3/image",
    requestType := "POST",
    fileFormName := "image",
    responseType := "json",
    regexps := map["url" := KeyPattern("link")],
    headers := map["Authorization" := "Client-ID b972ecca954f246"],
    arguments := map[])

  /** The configuration used when none has been persisted yet. */
  function DefaultConfig(): Config
  {
    Config(
      defaultFileUpload := ImgurName,
      defaultImageUpload := ImgurName,
      defaultURLShortener := "",
      historyPath := "$HOME/Pictures/Screenshots/caplet",
      saveDir := "$HOME/Pictures/Screenshots/caplet",
      organized := true,
      uploaders := map[ImgurName := ImgurDescriptor],
      shorteners := map[])
  }

  /** Every default that is set names a descriptor of its own category. */
  predicate DefaultsResolve(c: Config)
  {
    && (c.defaultFileUpload != "" ==> c.defaultFileUpload in c.uploaders)
    && (c.defaultImageUpload != "" ==> c.defaultImageUpload in c.uploaders)
    && (c.defaultURLShortener != "" ==> c.defaultURLShortener in c.shorteners)
  }

  /** The built-in configuration: both upload defaults are set and resolve to
      the imgur descriptor, which posts the file as "image" and reads the
      `link` member of the JSON reply; no shortener is configured. */
  lemma DefaultConfigResolves()
    ensures DefaultsResolve(DefaultConfig())
    ensures DefaultConfig().defaultFileUpload != "" && DefaultConfig().defaultImageUpload != ""
    ensures DefaultConfig().uploaders[DefaultConfig().defaultImageUpload] == ImgurDescriptor
    ensures DefaultConfig().uploaders[DefaultConfig().defaultFileUpload] == ImgurDescriptor
    ensures DefaultConfig().shorteners == map[] && DefaultConfig().defaultURLShortener == ""
    ensures ImgurDescriptor.requestType == "POST" && ImgurDescriptor.fileFormName == "image"
    ensures Lookup(ImgurDescriptor.regexps, "url") == "\"link\":\"(.+?)\""
  {
  }
}
