# caplet service engine, modelled in Dafny

caplet uploads files and shortens URLs through services that are described by
data, not code. A descriptor (`SiteConfig`) gives the endpoint, the HTTP
method, the form field of the file, extra headers and arguments, and a
regular expression whose first group picks the URL out of the service's reply.
This project models the engine that turns a descriptor into a transfer:

- the configuration and its built-in default: one imgur uploader and no shortener;
- request shaping:
  - `$input$` substitution;
  - a POST form body or a GET query string, with Go's `url.Values.Encode`;
  - the multipart form of an upload;
- the transfer tail:
  - only a 2xx status is accepted;
  - fewer than two submatches is an error;
  - `\x` is unescaped to `x`;
  - on success a record is appended to the history ledger;
  - a ledger write error is not fatal;
- the ledger itself (`history.json`);
- the ShareX `.sxcu` importer:
  - placeholder keys are extracted, and the last one wins;
  - a missing request method defaults to POST;
  - non-string headers and arguments are dropped;
  - the result is merged into the configuration;
- the routing of the command-line entry point: upload, clipboard fallback, shorten, or refuse.

Modules, one per file:

| file | module | contents |
|---|---|---|
| `wrappers.dfy` | `Wrappers` | Option and Result |
| `text.dfy` | `Text` | prefix, occurrence, `strings.ReplaceAll`, word characters |
| `paths.dfy` | `Paths` | `filepath.Base` and `filepath.Ext` |
| `formencoding.dfy` | `FormEncoding` | `url.QueryEscape` and `url.Values.Encode`, with a decoder that inverts them |
| `config.dfy` | `Config` | descriptors, configuration, `DefaultConfig` |
| `template.dfy` | `Template` | `$input$` substitution |
| `request.dfy` | `Requests` | the shortening request, the multipart form, the upload request |
| `extract.dfy` | `Extract` | the `"key":"(.+?)"` matcher, URL extraction, unescaping |
| `history.dfy` | `History` | the ledger |
| `transfer.dfy` | `Transfer` | ShortenURL (with the corrected request shaping of "## Findings") and UploadFile, from request to ledger |
| `importer.dfy` | `Importer` | ExtractJSONKeys and ImportSXCU |
| `routing.dfy` | `Routing` | the routing branch of `main` |

What lies outside the program becomes an input to the model:

- the HTTP exchange is a function `server: Request -> Exchange`;
- `http.NewRequest`'s URL parser is a predicate `acceptsURL`;
- the local file copy is a `LocalCopy` value;
- the history file system is a `HistoryStore` value;
- the clock is a `timestamp` string;
- regular expressions other than the importer's key pattern go to an uninterpreted `RegexEngine`.

The key pattern and the empty pattern are evaluated concretely. The key pattern is leftmost-first and lazy, and `.` does not match a newline.

## Model

| member | source | states |
|---|---|---|
| Config.DefaultConfigResolves | config.go:36-61 | both upload defaults name the imgur descriptor (POST, field "image", pattern for `link`); no shortener is named or configured |
| Template.SubstituteValues | main.go:46-55 | substitution keeps exactly the keys of the descriptor's map |
| Template.SubstituteLeftmost | main.go:48 | text without `$input$` is unchanged; otherwise the leftmost placeholder becomes the input verbatim, and the rest is substituted without rescanning the input |
| Template.SubstituteWholeValue | main.go:48 | a value that is exactly `$input$` becomes the input, even when the input contains `$input$` |
| Template.SubstituteValuesKeepsUntemplated | main.go:46-55 | values without the placeholder pass through unchanged; a value that is the placeholder becomes the input |
| Text.FirstOccurrenceIsLeftmost | main.go:48 | the occurrence found is a real occurrence, and no earlier one exists; none is reported only when there is none |
| Text.ContainsIff | config.go:99 | `strings.Contains` holds exactly when the pattern occurs at some index |
| Text.ReplaceAllLeftmost | main.go:48 | ReplaceAll rewrites the leftmost occurrence, then continues after it; without an occurrence the text is unchanged |
| Text.ReplaceAllAbsent | main.go:48 | text that does not contain the pattern is unchanged |
| Text.ReplaceAllWhole | main.go:48 | the pattern alone becomes the replacement |
| Text.ReplaceAllSplice | config.go:76 | when the first occurrence is at the splice point, the text around it is kept and only the rest is rewritten |
| Paths.TrimTrailingSlashes | main.go:278 | the result is a prefix of the path; no slash ends it; only slashes were removed |
| Paths.AfterLastSlash | main.go:278 | the result is a slash-free suffix of the path, preceded by a slash when it is not the whole path |
| Paths.Base | main.go:278 | never empty: "." for the empty path, "/" for a path of slashes, otherwise the slash-free last element |
| Paths.BaseLastElement | main.go:278 | the base of `dir/name` is `name` |
| Paths.BaseTrailingSlash | main.go:278 | trailing slashes are ignored: the base of `name/` is `name` |
| Paths.ExtIsDotSuffix | main.go:470 | the extension is a suffix of the path that starts with '.' and has no other '.' or '/' |
| Paths.ExtEmptyIff | main.go:470 | the extension is empty exactly when the last element has no '.' |
| Paths.ExtAppend | main.go:470 | appending a character other than '.' and '/' extends a non-empty extension |
| Paths.ExtLastDot | main.go:470 | the extension of `stem.ext` is `.ext` when `ext` has no '.' or '/' |
| Paths.ExtAfterSlash | main.go:470 | a last element without '.' has no extension, whatever the directory |
| FormEncoding.Utf8 | main.go:62 | each character becomes one to four bytes; ASCII becomes itself |
| FormEncoding.QueryEscapeIsEscapedText | main.go:62 | escaped output holds only unreserved characters, '+' and '%', and every '%' is followed by two upper-case hex digits |
| FormEncoding.EscapedTextHasNoSeparators | main.go:62 | an escaped text holds no '=' and no '&' |
| FormEncoding.QueryEscapeRoundTrip | main.go:62 | unescaping an escaped string gives back its UTF-8 bytes |
| FormEncoding.SortedKeys | main.go:62 | the keys, each exactly once, in strictly increasing byte order |
| FormEncoding.LessTotal | main.go:62 | the key order is total on distinct strings |
| FormEncoding.LessTransitive | main.go:62 | the key order is transitive |
| FormEncoding.LeastUnique | main.go:62 | a set of keys has at most one least element |
| FormEncoding.SplitJoin | main.go:62 | splitting joined separator-free parts gives the parts back |
| FormEncoding.Cut | main.go:62 | cutting at the first separator: the left part holds none, and the parts rejoin to the input |
| FormEncoding.EncodeRoundTrip | main.go:62 | parsing an encoded form gives every key and value as bytes, in sorted key order |
| FormEncoding.EncodeEmpty | main.go:65 | no arguments encode as the empty string, so a GET URL ends in '?' |
| FormEncoding.EncodeSingle | main.go:65 | one argument encodes as `escaped key=escaped value` |
| FormEncoding.QueryEscapeConcat | main.go:65 | escaping distributes over concatenation |
| FormEncoding.QueryEscapeUnreserved | main.go:65 | unreserved text is not changed |
| FormEncoding.EscapeURLShape | main.go:65 | in `scheme://host/path` with unreserved parts, only ':' and '/' are escaped |
| FormEncoding.EscapeURLExample | main.go:65 | `https://a.io/x` escapes to `https%3A%2F%2Fa.io%2Fx` |
| Requests.AddHeaders | main.go:73-78 | Add appends each descriptor value after values already present and keeps every other header |
| Requests.SetHeaders | main.go:194-197 | Set replaces a header's values with the descriptor's single value and keeps every other header |
| Requests.ShortenPostWithBadURLPanics | main.go:61-71 | as written, a POST descriptor with a URL the parser rejects crashes on the nil request; the corrected shaping reports the URL error |
| Requests.AsWrittenDiffersOnlyOnRejectedPost | main.go:61-71 | the program as written and the corrected shaping differ exactly for a POST shortener whose endpoint the parser rejects |
| Requests.ShortenRequestNeverPanics | main.go:61-71 | the corrected shaping never crashes; its only failure is an invalid URL |
| Requests.FormHeaders | main.go:63-78 | the POST headers: the form content type first, a descriptor Content-Type added after it, every other header with its substituted value |
| Requests.ShortenPostShape | main.go:46-78 | exactly "POST" gives a POST to the endpoint whose body parses back to the substituted arguments, with the form content type plus the substituted headers |
| Requests.ShortenGetURL | main.go:64-71 | any other method gives a GET with no body whose URL is the endpoint, '?' and the encoded substituted arguments |
| Requests.ShortenGetShape | main.go:51-78 | a GET carries exactly the substituted headers, one value each |
| Requests.ShortenGetWithoutArguments | main.go:65 | with no arguments the '?' is still appended |
| Requests.ShortenGetSingleArgument | main.go:46-66 | an argument `$input$` sends the input percent-encoded as its value |
| Requests.UploadRequestShape | main.go:183-197 | the upload form: the file under the descriptor's field or "file", named by the path's base; the arguments verbatim; headers not substituted and set over the multipart content type; an empty method is sent as GET |
| Requests.UploadRequestFailures | main.go:189-192 | an upload request fails exactly for a non-token method (reported first) or a rejected URL |
| Requests.UploadEmptyMethodIsGet | main.go:189 | an empty method with an accepted URL gives a GET |
| Requests.UploadMethodWithSpaceRefused | main.go:189-192 | a method containing a space is refused as invalid |
| Requests.UploadFileName | main.go:278 | the form names the file by the last element of its path |
| Extract.ParseKeyPattern | config.go:77 | only a key pattern over a word parses, and the key is a word |
| Extract.KeyPatternRoundTrip | config.go:72-77 | building the pattern for a word key and parsing it back gives the key; a parsed pattern is rebuilt exactly |
| Extract.CloseQuoteSpec | main.go:114-115 | the lazy group ends at the first '"' with no newline before it; none is found when there is none |
| Extract.MatchAtSpec | main.go:114-115 | a match at a position is the shortest candidate there; none is reported only when no candidate starts there |
| Extract.KeyMatchFromSpec | main.go:114-115 | the match found is a candidate, and no candidate starts earlier; none is reported only when there is none |
| Extract.LeftmostShortest | main.go:114-115 | conversely, the leftmost start with its shortest candidate is the match |
| Extract.KeySubmatches | main.go:115 | a search yields no submatches or exactly two |
| Extract.KeySubmatchesSpec | main.go:114-117 | two submatches exactly when a candidate exists; the capture is non-empty, has no newline, and no '"' after its first character |
| Extract.KeySubmatchesSplice | main.go:114-117 | in any text `pre + "key":" + value + '"' + post` where no `"key":"` opens inside `pre`, the match is exactly that member and its group is exactly `value`, for any non-empty value without '"' or newline |
| Extract.ExtractWithoutPattern | main.go:114-121 | a descriptor without a "url" pattern never yields a URL |
| Extract.ExtractKeyPattern | main.go:114-124 | an imported key pattern never makes the compiler panic, and it succeeds exactly when a candidate occurs |
| Extract.ExtractMember | main.go:114-124 | in any reply whose first `"key":"` opening starts the member, the URL is that member's value with its backslash escapes undone, for any non-empty value without '"' or newline |
| Extract.ExtractImgurLink | main.go:226-245 | in any imgur reply whose first `"link":"` opening starts the member, the URL is the link with its escapes undone |
| Extract.UnescapeNoBackslash | main.go:124 | text without a backslash is not changed |
| Extract.UnescapeShortens | main.go:124 | unescaping never lengthens |
| Extract.JsonEscape | main.go:124 | escaping never shortens |
| Extract.UnescapeJsonEscape | main.go:124 | unescaping inverts backslash-escaping of '"', '\\' and '/' |
| Extract.UnescapePlainPrefix | main.go:124 | a prefix without backslashes passes through unchanged |
| Extract.UnescapeEscapedChar | main.go:124 | a backslash and any character but a newline become that character |
| Extract.UnescapeSlashes | main.go:124 | `\/`-escaped slashes of a URL become plain slashes |
| Extract.UnescapeHostPath | main.go:124 | one escaped slash between unescaped parts becomes a slash |
| Extract.UnescapeOtherEscapes | main.go:124 | `\n` becomes `n`; a backslash before a real newline stays |
| History.SaveToHistory | main.go:305-338 | a save succeeds exactly when the directory is created and the write succeeds; the ledger grows by one |
| History.AfterSave | main.go:305-338 | when the directory and the write both work, the file afterwards holds the earlier records and then the new one; otherwise the store is unchanged; a save never changes whether the directory or the write works |
| History.SaveAppends | main.go:314-335 | earlier records are kept in order, the new record is last, and reading back gives the written ledger |
| History.SaveOverUnreadable | main.go:314-325 | a missing or corrupt file counts as an empty history: the save writes a one-record ledger |
| History.SaveAllAccumulates | main.go:305-338 | repeated saves to a writable store give the original records followed by the new ones in order |
| History.SaveAllUnwritable | main.go:308-335 | a store that cannot be written is never changed |
| Transfer.ConcludeSpec | main.go:100-137 | success exactly for a readable 2xx reply with an extracted URL; the ledger is touched only on success, and gains one record of the URL, file and descriptor name unless writing fails |
| Transfer.BadStatusFailsFirst | main.go:100-105 | a status outside 200..299 fails with that status and records nothing |
| Transfer.NoCaptureFails | main.go:114-121 | fewer than two submatches fails even with a 2xx status |
| Transfer.MissingPatternFails | main.go:114-121 | a descriptor without a "url" pattern fails every reply |
| Transfer.HistoryErrorIsNotFatal | main.go:126-137 | the transfer's result does not depend on whether the history can be written |
| Transfer.ShortenRecordsInput | main.go:42-137 | a shortening records the long URL; a request failure stops before any exchange |
| Transfer.ShortenAgreesWithProgram | main.go:42-137 | whenever the program as written builds a request, Shorten sends that request and concludes from its reply; where the program crashes, Shorten reports the URL error and records nothing |
| Transfer.UploadRecordsSavedCopy | main.go:141-258 | an upload records the saved copy's path; a local failure stops before any request |
| Transfer.ImgurUploadExample | main.go:141-258 | any 200 imgur reply whose first `"link":"` opening starts the member yields the unescaped link and a fresh ledger holding one record of it |
| Transfer.ServerErrorExample | main.go:100-105 | a 500 reply fails with status 500 and records nothing |
| Transfer.ImportedPatternNeverPanics | main.go:114 | a descriptor whose patterns come from an import never panics the compiler |
| Importer.WordRun | config.go:72 | the run covers only word characters and stops at a non-word character or the end |
| Importer.PlaceholderAt | config.go:72 | a placeholder match has room for the opening, a word character and '$' |
| Importer.PlaceholderShape | config.go:72 | a placeholder match is `$json:`, a non-empty word, then '$' |
| Importer.PlaceholderAtComplete | config.go:72-73 | every `$json:` + word + `$` in a field is recognised where it starts, ending after its '$' |
| Importer.FindAllFromLeftmost | config.go:72-73 | the scan takes the leftmost match at or after its position and resumes right after that match |
| Importer.FindAllFromNone | config.go:72-73 | the scan finds nothing exactly when no match starts at or after its position |
| Importer.KeyOfPlaceholder | config.go:75-76 | the key of a placeholder `$json:w$` is `w` |
| Importer.RecordKeysAppend | config.go:67-79 | recording keys in two batches equals recording them in one |
| Importer.RecordFieldsKeys | config.go:67-79 | walking fields and their matches equals recording all keys in order |
| Importer.ExtractJSONKeysLastWins | config.go:63-82 | empty when no field has a placeholder; otherwise exactly "url" for the last key found |
| Importer.AllKeysAreWords | config.go:72-76 | every key found is a word |
| Importer.FindAllSingle | config.go:72-73 | a field with one placeholder and no other '$' matches exactly it |
| Importer.SinglePlaceholderField | config.go:63-82 | such a field yields the key pattern of its key |
| Importer.NonOverlapExample | config.go:72-73 | matches do not overlap: `$json:a$json:b$` yields only `a` |
| Importer.NoPlaceholderField | config.go:67-70 | an empty URL field yields no pattern |
| Importer.StringMembers | config.go:131-149 | exactly the string-valued members are kept, with their values |
| Importer.MergeSpec | config.go:157-167 | the descriptor is added under its name and made its category's default; the other category and the settings are unchanged |
| Importer.MergeKeepsDefaultsResolved | config.go:157-167 | merging keeps every default resolvable |
| Importer.ImportSpec | config.go:84-181 | import succeeds exactly when the document is a readable object or null, the three required strings exist, the configuration loads and the write succeeds; the result merges the descriptor read from the document: name, URL, category, method (POST when absent), form field, all string headers and arguments, and the pattern of the URL field's last placeholder |
| Importer.DescriptorSpec | config.go:98-149 | a descriptor is read exactly when DestinationType, Name and RequestURL are strings; a string RequestMethod or FileFormName is taken over, otherwise POST or empty; headers and arguments are exactly the string members; the pattern comes from the URL field |
| Importer.NullDocumentPanics | config.go:94-99 | a JSON null stops at the DestinationType type assertion |
| Importer.ImportShortenerExample | config.go:84-181 | importing a shortener into the default configuration makes it the default shortener with method POST and no pattern, and leaves the uploaders alone |
| Routing.RouteUploadIff | main.go:469-530 | a file is uploaded exactly when its kind's default names a configured uploader; the image is copied first exactly for an image with the clip flag |
| Routing.RouteShortenIff | main.go:555-585 | a URL is shortened exactly when no file is given and the default names a configured shortener; the three refusals are distinguished |
| Routing.ResolvedDefaultsUpload | main.go:489-554 | with resolvable defaults, the clipboard fallback happens exactly when the default is unset |
| Routing.DefaultConfigRoutes | main.go:469-579 | the built-in configuration uploads every file to imgur and refuses URLs for want of a shortener |
| Routing.ImportedUploaderRoutes | main.go:489-499 | after an uploader is merged in, every file goes to it |
| Routing.ImportedNamelessUploader | main.go:531-554 | an imported uploader with an empty name leads to the clipboard |
| Routing.ImportedShortenerRoutes | main.go:555-567 | after a shortener is merged in, URLs go to it and files are routed as before |
| Routing.UnnamedDefaultCopiesImageTwice | main.go:474-543 | with no default and the clip flag, the image is copied twice |
| Routing.MissingUploaderCopiesOnce | main.go:501-518 | a named but missing uploader copies the image only once |
| Routing.ImagePathByExtension | main.go:470-471 | an image is decided by the text after the last '.' |
| Routing.ExtensionlessIsNotImage | main.go:470-471 | a last element without '.' is never an image |
| Routing.UpperCaseExtensionIsNotImage | main.go:31-40 | extensions are compared case-sensitively |

## Left out

- The HTTP client, TLS and timeouts: a reply is an input (`server`), and a transport error is one outcome.
- `http.NewRequest`'s URL parsing: a predicate input (`acceptsURL`).
- Header names are not canonicalised the way `http.Header` does it: they are compared as written.
- The multipart wire format is not modelled: boundary generation, part order and byte layout. The form is a record of its parts.
- Creating the save directory and copying the file into it are a `LocalCopy` input. Also left out:
  - `$HOME` expansion;
  - the organized year-month directory;
  - `filepath.Join`.
- The history file system is a `HistoryStore` value, and JSON encoding of records is not modelled. A failed write leaves the file as it was; partial writes are not modelled.
- `time.Now` is left out: the timestamp is an input.
- No locking. Two concurrent saves are not modelled.
- The general Go `regexp` engine is left out. Only the importer's key pattern and the empty pattern are evaluated. Other patterns go to an uninterpreted engine, whose `None` stands for a `MustCompile` panic.
- JSON decoding of `.sxcu` files and of the configuration is left out. The document is a `Json` value with numbers kept as text. `LoadConfig` and the write-back are a loaded `Option<Config>` and a success flag.
- Merging into a loaded configuration whose uploader or shortener map is JSON null or absent panics in Go, since both decode to a nil map. The model treats such a map as empty.
- Go strings are byte sequences, while the model's strings are sequences of Unicode characters. A reply body that is not valid UTF-8 is not represented, and `filepath.Base` and `filepath.Ext` are modelled on characters, not bytes.
- Clipboard access, screenshots, sounds, desktop notifications (`Notify`, `NOTIFY_ID`) and copying the resulting URL to the clipboard are effects outside the engine. The routing plan only names which clipboard copies happen.
- Flag parsing, usage text, `os.Exit` codes and goroutines are left out.
- Transfer.Shorten: composes the corrected request shaping of "## Findings" (Requests.ShortenRequest). For a POST shortener whose endpoint the URL parser rejects, it therefore reports RequestFailed(InvalidURL) where the program as written crashes. Requests.ShortenRequestAsWritten models the crash, and Transfer.ShortenAgreesWithProgram shows that every other input gives the program's own request. Transfer.ShortenRecordsInput inherits this.
- Template.SubstituteValues: Go's `url.Values` keeps a list of values per key. The descriptor supplies exactly one, so a map of strings is used.
- Extract.ExtractImgurLink: stated for replies whose first `"link":"` opening starts the member and whose link holds no '"' or newline; a link containing a JSON-escaped quote (`\"`) is not covered, because the pattern's lazy `(.+?)"` stops at that quote, and `.` does not match a newline. Extract.ExtractMember, Extract.KeySubmatchesSplice and Transfer.ImgurUploadExample carry the same restriction.
- Extract.UnescapeSlashes: stated for any scheme, host and path without backslashes, not for one literal URL.

Behaviours of the program worth noting, which the model follows:

- Upload headers are not `$input$`-substituted, and they replace (Set) the multipart Content-Type.
- Any shortening method other than exactly "POST" is sent as GET.
- An empty upload method is sent as GET.
- The importer's unchecked type assertions on DestinationType, Name and RequestURL (config.go:99-114) panic when a field is missing or not a string; the model makes each a failure (`FieldPanic`).

## Findings

| source | as written | input that shows it | evidently intended | confidence | as-written member | corrected member |
|---|---|---|---|---|---|---|
| main.go:61-71 | the POST branch sets Content-Type on the request before the creation error is checked | a POST descriptor whose RequestURL the parser rejects, e.g. `://no-scheme` | return the request-creation error, as the GET branch does | not executed | Requests.ShortenPostWithBadURLPanics | Requests.ShortenRequestNeverPanics |
