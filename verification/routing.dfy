/** The routing decision of the command-line entry point (main.go, main):
    with a file, pick the image or the file default by extension and upload
    with it, or fall back to the clipboard; with a URL, shorten it with the
    default shortener or refuse; with neither, refuse. The clipboard,
    sounds and notifications are effects outside the model; the plan names
    which clipboard copies happen. */
module Routing {
  import opened Config
  import opened Importer
  import Paths

  /** Extensions treated as images, compared case-sensitively. */
  const ImageExtensions: set<string> :=
    {".png", ".jpg", ".jpeg", ".gif", ".bmp", ".tiff", ".webp", ".svg"}

  predicate IsImagePath(filePath: string)
  {
    Paths.Ext(filePath) in ImageExtensions
  }

  /** What is put on the clipboard instead of uploading. */
  datatype ClipboardCopy = NoCopy | ImageData | PathText

  datatype RouteError =
    | NoShortenerKey                 // no default shortener is named
    | ShortenerNotFound(name: string) // the named shortener is not configured
    | NothingToProcess

  datatype Action =
    | UploadWith(uploader: SiteConfig)
    | CopyInstead(copy: ClipboardCopy)  // no upload; the run ends successfully
    | ShortenWith(shortener: SiteConfig)
    | Refuse(error: RouteError)         // the run ends with a failure

  /** `imageCopiedFirst`: the image is put on the clipboard before the
      service is even looked up, because the clip flag asks for it. */
  datatype Plan = Plan(imageCopiedFirst: bool, action: Action)

  function UploadDefault(config: Config, filePath: string): string
  {
    if IsImagePath(filePath) then config.defaultImageUpload else config.defaultFileUpload
  }

  function Route(config: Config, filePath: string, inputURL: string, clip: bool): Plan
  {
    if filePath != "" then
      var isImage := IsImagePath(filePath);
      var early := isImage && clip;
      var name := UploadDefault(config, filePath);
      if name != "" then
        if name in config.uploaders then Plan(early, UploadWith(config.uploaders[name]))
        else Plan(early, CopyInstead(if !isImage then PathText else if clip then NoCopy else ImageData))
      else Plan(early, CopyInstead(if isImage then ImageData else PathText))
    else if inputURL != "" then
      var name := config.defaultURLShortener;
      if name == "" then Plan(false, Refuse(NoShortenerKey))
      else if name !in config.shorteners then Plan(false, Refuse(ShortenerNotFound(name)))
      else Plan(false, ShortenWith(config.shorteners[name]))
    else Plan(false, Refuse(NothingToProcess))
  }

  /** A file is uploaded exactly when the default of its kind names a
      configured uploader, and then with that uploader; a URL is never
      looked at when a file is given. */
  lemma RouteUploadIff(config: Config, filePath: string, inputURL: string, clip: bool)
    ensures var p := Route(config, filePath, inputURL, clip);
      var name := UploadDefault(config, filePath);
      && (p.action.UploadWith? <==> filePath != "" && name != "" && name in config.uploaders)
      && (p.action.UploadWith? ==> p.action.uploader == config.uploaders[name])
      && (filePath != "" ==> !p.action.ShortenWith? && !p.action.Refuse?)
      && (p.imageCopiedFirst <==> filePath != "" && clip && IsImagePath(filePath))
  {
  }

  /** A URL is shortened exactly when no file is given and the default
      shortener names a configured shortener; otherwise the two missing
      cases are refused with different errors. */
  lemma RouteShortenIff(config: Config, filePath: string, inputURL: string, clip: bool)
    ensures var p := Route(config, filePath, inputURL, clip);
      var name := config.defaultURLShortener;
      && (p.action.ShortenWith? <==>
            filePath == "" && inputURL != "" && name != "" && name in config.shorteners)
      && (p.action.ShortenWith? ==> p.action.shortener == config.shorteners[name])
      && (filePath == "" && inputURL != "" && name == "" ==> p.action == Refuse(NoShortenerKey))
      && (filePath == "" && inputURL != "" && name != "" && name !in config.shorteners ==>
            p.action == Refuse(ShortenerNotFound(name)))
      && (filePath == "" && inputURL == "" ==> p.action == Refuse(NothingToProcess))
  {
  }

  /** With resolvable defaults the clipboard fallback only happens for a
      kind of file whose default is unset. */
  lemma ResolvedDefaultsUpload(config: Config, filePath: string, inputURL: string, clip: bool)
    requires DefaultsResolve(config) && filePath != ""
    ensures Route(config, filePath, inputURL, clip).action.CopyInstead? <==> UploadDefault(config, filePath) == ""
  {
  }

  /** The built-in configuration uploads every file, image or not, to imgur
      and refuses every URL for want of a shortener. */
  lemma DefaultConfigRoutes(filePath: string, inputURL: string, clip: bool)
    ensures filePath != "" ==> Route(DefaultConfig(), filePath, inputURL, clip).action == UploadWith(ImgurDescriptor)
    ensures filePath == "" && inputURL != "" ==>
      Route(DefaultConfig(), filePath, inputURL, clip).action == Refuse(NoShortenerKey)
  {
  }

  /** After an uploader is merged in, every file goes to it. */
  lemma ImportedUploaderRoutes(config: Config, site: SiteConfig, filePath: string, inputURL: string, clip: bool)
    requires filePath != "" && site.name != ""
    ensures Route(Merge(config, site, false), filePath, inputURL, clip).action == UploadWith(site)
  {
  }

  /** An uploader imported with an empty name clears both upload defaults,
      so files are copied to the clipboard instead of uploaded. */
  lemma ImportedNamelessUploader(config: Config, site: SiteConfig, filePath: string, clip: bool)
    requires filePath != "" && site.name == ""
    ensures Route(Merge(config, site, false), filePath, "", clip).action.CopyInstead?
  {
  }

  /** After a shortener is merged in, a URL goes to it, and files are routed
      as before. */
  lemma ImportedShortenerRoutes(config: Config, site: SiteConfig, filePath: string, inputURL: string, clip: bool)
    requires site.name != ""
    ensures filePath == "" && inputURL != "" ==>
      Route(Merge(config, site, true), filePath, inputURL, clip).action == ShortenWith(site)
    ensures filePath != "" ==>
      Route(Merge(config, site, true), filePath, inputURL, clip) == Route(config, filePath, inputURL, clip)
  {
  }

  /** With no default named and the clip flag set, an image is put on the
      clipboard twice: once for the flag and once as the fallback. */
  lemma UnnamedDefaultCopiesImageTwice(config: Config, filePath: string, inputURL: string)
    requires filePath != "" && IsImagePath(filePath) && config.defaultImageUpload == ""
    ensures Route(config, filePath, inputURL, true) == Plan(true, CopyInstead(ImageData))
  {
  }

  /** A named but missing uploader does not copy the image a second time. */
  lemma MissingUploaderCopiesOnce(config: Config, filePath: string, inputURL: string, clip: bool)
    requires filePath != "" && IsImagePath(filePath)
    requires config.defaultImageUpload != "" && config.defaultImageUpload !in config.uploaders
    ensures Route(config, filePath, inputURL, clip).action == CopyInstead(if clip then NoCopy else ImageData)
    ensures Route(config, filePath, inputURL, clip).imageCopiedFirst == clip
  {
  }

  /** The extension after the last '.' decides, e.g. `shot.png` is an
      image and `archive.tar.gz` is not. */
  lemma ImagePathByExtension(stem: string, ext: string)
    requires Paths.Plain(ext)
    ensures IsImagePath(stem + "." + ext) <==> "." + ext in ImageExtensions
  {
    Paths.ExtLastDot(stem, ext);
  }

  /** A last element without '.' is never an image, even under a directory
      whose name has one, e.g. `dir.d/README`. */
  lemma ExtensionlessIsNotImage(dir: string, name: string)
    requires Paths.Plain(name)
    ensures !IsImagePath(dir + "/" + name)
  {
    Paths.ExtAfterSlash(dir, name);
  }

  /** Upper-case extensions are not recognised. */
  lemma UpperCaseExtensionIsNotImage(filePath: string)
    requires Paths.Ext(filePath) == ".PNG"
    ensures !IsImagePath(filePath)
  {
  }
}
