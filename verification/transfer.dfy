/** One transfer from request to recorded URL (main.go, ShortenURL and
    UploadFile): create the request, exchange it with the service, insist on
    a 2xx status, read the body, extract the URL, and record it in the
    history. The service, the local file system and the clock are inputs:
    `server` answers a request, `local` says how copying the file into the
    save directory went, `timestamp` is the time the record carries. */
module Transfer {
  import opened Wrappers
  import opened Config
  import opened Requests
  import opened Extract
  import opened History
  import FormEncoding
  import Text

  /** The service's answer to one request. */
  datatype Exchange =
    | TransportFailure                          // client.Do returned an error
    | Reply(status: int, body: Option<string>)  // None: the body could not be read

  /** The local steps of an upload that precede the request. */
  datatype LocalStep = CreateSaveDir | OpenSource | CreateCopy | CopyContent | BuildForm

  /** The outcome of copying the file into the save directory and reading it
      for the form: the path of the copy and the file's bytes, or the step
      that failed. */
  datatype LocalCopy =
    | Copied(savedPath: string, content: seq<FormEncoding.byte>)
    | LocalFailure(step: LocalStep)

  datatype TransferError =
    | RequestFailed(requestError: RequestError)   // the request could not be created
    | LocalFailed(step: LocalStep)
    | TransportFailed
    | BadStatus(status: int)               // a status outside 200..299
    | ReadFailed                           // the reply body could not be read
    | ExtractFailed(extractError: ExtractError)   // no URL in the reply

  /** What the transfer did to the history ledger. */
  datatype LedgerEffect =
    | Untouched
    | Appended(entries: seq<Upload>)       // the complete ledger written
    | AppendFailed(error: HistoryError)    // reported, but not fatal

  datatype Outcome = Outcome(result: Result<string, TransferError>, ledger: LedgerEffect)

  predicate IsSuccessStatus(status: int)
  {
    200 <= status < 300
  }

  /** The common tail of both transfers, from the reply to the ledger: the
      record names `file` (the input URL, or the saved copy of an upload)
      and the descriptor's display name. */
  function Conclude(reply: Exchange, service: SiteConfig, engine: RegexEngine,
                    store: HistoryStore, file: string, timestamp: string): Outcome
  {
    match reply
    case TransportFailure => Outcome(Failure(TransportFailed), Untouched)
    case Reply(status, body) =>
      if status < 200 || status >= 300 then Outcome(Failure(BadStatus(status)), Untouched)
      else match body
        case None => Outcome(Failure(ReadFailed), Untouched)
        case Some(text) =>
          match ExtractURL(Lookup(service.regexps, "url"), text, engine)
          case Failure(e) => Outcome(Failure(ExtractFailed(e)), Untouched)
          case Success(url) =>
            var entry := Upload(url, file, timestamp, service.name);
            match SaveToHistory(store, entry)
            case Success(es) => Outcome(Success(url), Appended(es))
            case Failure(he) => Outcome(Success(url), AppendFailed(he))
  }

  /** ShortenURL with `$input$` substituted into arguments and headers. */
  function Shorten(input: string, service: SiteConfig, acceptsURL: string -> bool,
                   server: Request -> Exchange, engine: RegexEngine,
                   store: HistoryStore, timestamp: string): Outcome
  {
    match ShortenRequest(service, input, acceptsURL)
    case Failure(e) => Outcome(Failure(RequestFailed(e)), Untouched)
    case Success(req) => Conclude(server(req), service, engine, store, input, timestamp)
  }

  /** UploadFile: the local copy first, then the multipart request. */
  function UploadFile(filePath: string, service: SiteConfig, local: LocalCopy, boundary: string,
                      acceptsURL: string -> bool, server: Request -> Exchange,
                      engine: RegexEngine, store: HistoryStore, timestamp: string): Outcome
  {
    match local
    case LocalFailure(step) => Outcome(Failure(LocalFailed(step)), Untouched)
    case Copied(savedPath, content) =>
      match UploadRequest(service, filePath, content, boundary, acceptsURL)
      case Failure(e) => Outcome(Failure(RequestFailed(e)), Untouched)
      case Success(req) => Conclude(server(req), service, engine, store, savedPath, timestamp)
  }

  /** The contract of the common tail. The transfer succeeds exactly when
      the reply is a readable 2xx from which a URL is extracted; the URL is
      the extracted one; the ledger is touched only on success, and then it
      is the earlier records plus one record of this URL, `file` and the
      descriptor's name, unless the history could not be written, which is
      reported beside a still successful result. */
  lemma ConcludeSpec(reply: Exchange, service: SiteConfig, engine: RegexEngine,
                     store: HistoryStore, file: string, timestamp: string)
    ensures var o := Conclude(reply, service, engine, store, file, timestamp);
      && (o.result.Success? <==>
            && reply.Reply? && IsSuccessStatus(reply.status) && reply.body.Some?
            && ExtractURL(Lookup(service.regexps, "url"), reply.body.value, engine).Success?)
      && (o.result.Success? ==>
            o.result.value == ExtractURL(Lookup(service.regexps, "url"), reply.body.value, engine).value)
      && (o.ledger.Untouched? <==> o.result.Failure?)
      && (o.ledger.Appended? <==> o.result.Success? && store.dirCreated && store.writeSucceeds)
      && (o.ledger.Appended? ==>
            o.ledger.entries == Existing(store.file) + [Upload(o.result.value, file, timestamp, service.name)])
  {
  }

  /** The status is judged before the body: any status outside 200..299
      fails with that status and leaves the ledger alone. */
  lemma BadStatusFailsFirst(status: int, body: Option<string>, service: SiteConfig,
                            engine: RegexEngine, store: HistoryStore, file: string, timestamp: string)
    requires !IsSuccessStatus(status)
    ensures Conclude(Reply(status, body), service, engine, store, file, timestamp)
         == Outcome(Failure(BadStatus(status)), Untouched)
  {
  }

  /** Fewer than two submatches is an extraction error, whatever the engine
      returned and even with a 2xx status. */
  lemma NoCaptureFails(status: int, text: string, service: SiteConfig, engine: RegexEngine,
                       store: HistoryStore, file: string, timestamp: string)
    requires IsSuccessStatus(status)
    requires var ms := FindSubmatch(Lookup(service.regexps, "url"), text, engine); ms.Some? && |ms.value| < 2
    ensures Conclude(Reply(status, Some(text)), service, engine, store, file, timestamp)
         == Outcome(Failure(ExtractFailed(NoCapture)), Untouched)
  {
  }

  /** A descriptor without a "url" pattern fails every successful reply. */
  lemma MissingPatternFails(status: int, text: string, service: SiteConfig, engine: RegexEngine,
                            store: HistoryStore, file: string, timestamp: string)
    requires IsSuccessStatus(status) && "url" !in service.regexps
    ensures Conclude(Reply(status, Some(text)), service, engine, store, file, timestamp)
         == Outcome(Failure(ExtractFailed(NoCapture)), Untouched)
  {
    ExtractWithoutPattern(text, engine);
  }

  /** A failing history write never turns a successful transfer into a
      failed one. */
  lemma HistoryErrorIsNotFatal(reply: Exchange, service: SiteConfig, engine: RegexEngine,
                               store: HistoryStore, file: string, timestamp: string)
    ensures var writable := store.(dirCreated := true, writeSucceeds := true);
      Conclude(reply, service, engine, store, file, timestamp).result
        == Conclude(reply, service, engine, writable, file, timestamp).result
  {
  }

  /** A successful shortening records the long URL as the record's file. */
  lemma ShortenRecordsInput(input: string, service: SiteConfig, acceptsURL: string -> bool,
                            server: Request -> Exchange, engine: RegexEngine,
                            store: HistoryStore, timestamp: string)
    ensures var o := Shorten(input, service, acceptsURL, server, engine, store, timestamp);
      && (o.ledger.Appended? ==>
            o.ledger.entries == Existing(store.file) + [Upload(o.result.value, input, timestamp, service.name)])
      && (o.result.Success? ==> ShortenRequest(service, input, acceptsURL).Success?)
      && (ShortenRequest(service, input, acceptsURL).Failure? ==>
            o == Outcome(Failure(RequestFailed(ShortenRequest(service, input, acceptsURL).error)), Untouched))
  {
    match ShortenRequest(service, input, acceptsURL)
    case Success(req) => ConcludeSpec(server(req), service, engine, store, input, timestamp);
    case Failure(_) =>
  }

  /** Shorten builds its request with the corrected shaping. Whenever the
      program as written makes a request, Shorten sends that same request
      and concludes from its reply; on the one input where the program as
      written crashes, a POST shortener with a rejected endpoint, Shorten
      reports the URL error and records nothing. */
  lemma ShortenAgreesWithProgram(input: string, service: SiteConfig, acceptsURL: string -> bool,
                                 server: Request -> Exchange, engine: RegexEngine,
                                 store: HistoryStore, timestamp: string)
    ensures var asWritten := ShortenRequestAsWritten(service, input, acceptsURL);
      asWritten.Success? ==>
        Shorten(input, service, acceptsURL, server, engine, store, timestamp)
          == Conclude(server(asWritten.value), service, engine, store, input, timestamp)
    ensures service.requestType == "POST" && !acceptsURL(service.requestURL) ==>
      && ShortenRequestAsWritten(service, input, acceptsURL) == Failure(NilRequestPanic)
      && Shorten(input, service, acceptsURL, server, engine, store, timestamp)
           == Outcome(Failure(RequestFailed(InvalidURL(service.requestURL))), Untouched)
  {
  }

  /** A successful upload records the saved copy, not the original path; a
      local failure stops the upload before any request is made. */
  lemma UploadRecordsSavedCopy(filePath: string, service: SiteConfig, local: LocalCopy, boundary: string,
                               acceptsURL: string -> bool, server: Request -> Exchange,
                               engine: RegexEngine, store: HistoryStore, timestamp: string)
    ensures var o := UploadFile(filePath, service, local, boundary, acceptsURL, server, engine, store, timestamp);
      && (local.LocalFailure? ==> o == Outcome(Failure(LocalFailed(local.step)), Untouched))
      && (o.ledger.Appended? ==>
            && local.Copied?
            && o.ledger.entries == Existing(store.file) + [Upload(o.result.value, local.savedPath, timestamp, service.name)])
  {
    if local.Copied? {
      match UploadRequest(service, filePath, local.content, boundary, acceptsURL)
      case Success(req) => ConcludeSpec(server(req), service, engine, store, local.savedPath, timestamp);
      case Failure(_) =>
    }
  }

  /** An imgur upload with the default descriptor: the first `link` member
      of a 200 reply, e.g. `{"data":{"id":"abc","link":"…"}}`, becomes the
      result, with its escapes undone, and the only record of a fresh
      ledger. */
  lemma ImgurUploadExample(filePath: string, savedPath: string, content: seq<FormEncoding.byte>,
                           boundary: string, acceptsURL: string -> bool,
                           pre: string, link: string, post: string,
                           server: Request -> Exchange, engine: RegexEngine, timestamp: string)
    requires acceptsURL(ImgurDescriptor.requestURL)
    requires NoOpeningBefore(pre, Opening("link") + link + "\"" + post, "link")
    requires |link| > 0
    requires forall x :: 0 <= x < |link| ==> link[x] != '"' && link[x] != '\n'
    requires forall req :: server(req) == Reply(200, Some(pre + Opening("link") + link + "\"" + post))
    ensures var store := HistoryStore(true, Missing, true);
      UploadFile(filePath, ImgurDescriptor, Copied(savedPath, content), boundary, acceptsURL,
                 server, engine, store, timestamp)
        == Outcome(Success(Unescape(link)), Appended([Upload(Unescape(link), savedPath, timestamp, "Imgur")]))
  {
    var reply := pre + Opening("link") + link + "\"" + post;
    var url := Unescape(link);
    ImgurRequestBuilt(filePath, content, boundary, acceptsURL);
    ImgurURLPattern();
    ExtractImgurLink(pre, link, post, engine);
    ImgurReplyRecorded(reply, url, engine, savedPath, timestamp);
  }

  /** With an acceptable endpoint, the imgur descriptor yields a request. */
  lemma ImgurRequestBuilt(filePath: string, content: seq<FormEncoding.byte>,
                          boundary: string, acceptsURL: string -> bool)
    requires acceptsURL(ImgurDescriptor.requestURL)
    ensures UploadRequest(ImgurDescriptor, filePath, content, boundary, acceptsURL).Success?
  {
    assert IsValidMethod("POST") by {
      assert forall i :: 0 <= i < 4 ==> IsTokenChar("POST"[i]);
    }
    UploadRequestFailures(ImgurDescriptor, filePath, content, boundary, acceptsURL);
  }

  /** The imgur descriptor's "url" pattern is the one for the `link` key. */
  lemma ImgurURLPattern()
    ensures Lookup(ImgurDescriptor.regexps, "url") == KeyPattern("link")
  {
  }

  /** A 200 reply from which the imgur pattern extracts `url` is recorded
      as the only entry of a fresh ledger. */
  lemma ImgurReplyRecorded(reply: string, url: string, engine: RegexEngine,
                           savedPath: string, timestamp: string)
    requires ExtractURL(Lookup(ImgurDescriptor.regexps, "url"), reply, engine) == Success(url)
    ensures Conclude(Reply(200, Some(reply)), ImgurDescriptor, engine, HistoryStore(true, Missing, true),
                     savedPath, timestamp)
         == Outcome(Success(url), Appended([Upload(url, savedPath, timestamp, "Imgur")]))
  {
    var entry := Upload(url, savedPath, timestamp, "Imgur");
    assert SaveToHistory(HistoryStore(true, Missing, true), entry) == Success([entry]) by {
      assert Existing(Missing) + [entry] == [entry];
    }
  }

  /** A server error leaves nothing to extract and nothing recorded. */
  lemma ServerErrorExample(input: string, service: SiteConfig, acceptsURL: string -> bool,
                           server: Request -> Exchange, engine: RegexEngine,
                           store: HistoryStore, timestamp: string)
    requires ShortenRequest(service, input, acceptsURL).Success?
    requires forall req :: server(req) == Reply(500, Some("internal error"))
    ensures Shorten(input, service, acceptsURL, server, engine, store, timestamp)
         == Outcome(Failure(BadStatus(500)), Untouched)
  {
  }

  /** A descriptor whose patterns came from an import (none, or one key
      pattern) never makes the pattern compiler panic, whatever the reply. */
  lemma ImportedPatternNeverPanics(site: SiteConfig, body: string, engine: RegexEngine)
    requires site.regexps == map[] || exists w :: Text.IsWord(w) && site.regexps == map["url" := KeyPattern(w)]
    ensures ExtractURL(Lookup(site.regexps, "url"), body, engine) != Failure(PatternPanic)
  {
    if site.regexps != map[] {
      var w :| Text.IsWord(w) && site.regexps == map["url" := KeyPattern(w)];
      ExtractKeyPattern(w, body, engine);
    }
  }
}
