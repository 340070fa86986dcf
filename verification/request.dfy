/** Request shaping: the HTTP request a shortener descriptor produces for one
    URL (main.go, ShortenURL) and the multipart upload a descriptor produces
    for one file (main.go, UploadFile and createMultipartForm). The request
    is a value; sending it is the transport's business. */
module Requests {
  import opened Wrappers
  import opened Config
  import opened Template
  import FormEncoding
  import Paths

  datatype MultipartForm = MultipartForm(
    fileField: string,               // form field name of the file part
    fileName: string,                // filename announced for the file part
    content: seq<FormEncoding.byte>,
    fields: map<string, string>)     // plain text fields; their order is not modelled

  datatype Body = NoBody | FormBody(encoded: string) | MultipartBody(form: MultipartForm)

  /** Header values by header name, as Go's http.Header holds them. */
  type Headers = map<string, seq<string>>

  datatype Request = Request(verb: string, url: string, headers: Headers, body: Body)

  datatype RequestError =
    | InvalidMethod(verb: string)  // http.NewRequest refuses a method that is not a token
    | InvalidURL(url: string)        // http.NewRequest could not parse the URL
    | NilRequestPanic                // the request was used before its creation error was checked

  const FormContentType: string := "application/x-www-form-urlencoded"

  /** `header.Add(k, v)` for every entry of `extra`. */
  function AddHeaders(base: Headers, extra: map<string, string>): (r: Headers)
    ensures r.Keys == base.Keys + extra.Keys
    ensures forall k :: k in extra && k in base ==> r[k] == base[k] + [extra[k]]
    ensures forall k :: k in extra && k !in base ==> r[k] == [extra[k]]
    ensures forall k :: k in base && k !in extra ==> r[k] == base[k]
  {
    map k | k in base.Keys + extra.Keys ::
      if k in extra then (if k in base then base[k] else []) + [extra[k]] else base[k]
  }

  /** `header.Set(k, v)` for every entry of `extra`: a descriptor header
      replaces any value already present under its name. */
  function SetHeaders(base: Headers, extra: map<string, string>): (r: Headers)
    ensures r.Keys == base.Keys + extra.Keys
    ensures forall k :: k in extra ==> r[k] == [extra[k]]
    ensures forall k :: k in base && k !in extra ==> r[k] == base[k]
  {
    map k | k in base.Keys + extra.Keys :: if k in extra then [extra[k]] else base[k]
  }

  /** The shortening request for `input`. Arguments and headers are
      substituted; exactly the method "POST" sends the encoded arguments as a
      form body, any other method sends a GET whose URL is the endpoint, '?'
      and the encoded arguments. `acceptsURL` stands for http.NewRequest's URL
      parser. */
  function ShortenRequest(service: SiteConfig, input: string, acceptsURL: string -> bool)
    : Result<Request, RequestError>
  {
    var args := SubstituteValues(service.arguments, input);
    var headers := SubstituteValues(service.headers, input);
    if service.requestType == "POST" then
      if !acceptsURL(service.requestURL) then Failure(InvalidURL(service.requestURL))
      else
        var base := map["Content-Type" := [FormContentType]];
        Success(Request("POST", service.requestURL, AddHeaders(base, headers),
                        FormBody(FormEncoding.Encode(args))))
    else
      var full := service.requestURL + "?" + FormEncoding.Encode(args);
      if !acceptsURL(full) then Failure(InvalidURL(full))
      else Success(Request("GET", full, AddHeaders(map[], headers), NoBody))
  }

  /** ShortenURL as written: on the POST path the new request's header is
      written before the creation error is looked at, so a rejected URL
      dereferences a nil request instead of returning the error. */
  function ShortenRequestAsWritten(service: SiteConfig, input: string, acceptsURL: string -> bool)
    : Result<Request, RequestError>
  {
    if service.requestType == "POST" && !acceptsURL(service.requestURL) then Failure(NilRequestPanic)
    else ShortenRequest(service, input, acceptsURL)
  }

  /** The discrepancy: a POST shortener whose endpoint the URL parser rejects
      crashes as written, where the corrected request shaping reports the
      creation error. */
  lemma ShortenPostWithBadURLPanics()
    ensures var s := SiteConfig("bad", "://no-scheme", "POST", "", "regex", map[], map[], map[]);
      var rejectAll := (u: string) => false;
      && ShortenRequestAsWritten(s, "https://long.example/page", rejectAll) == Failure(NilRequestPanic)
      && ShortenRequest(s, "https://long.example/page", rejectAll) == Failure(InvalidURL("://no-scheme"))
  {
  }

  /** The corrected shaping departs from the program as written on exactly
      one kind of input: a POST shortener whose endpoint the URL parser
      rejects. Everywhere else the two agree, failures included. */
  lemma AsWrittenDiffersOnlyOnRejectedPost(service: SiteConfig, input: string, acceptsURL: string -> bool)
    ensures ShortenRequestAsWritten(service, input, acceptsURL) != ShortenRequest(service, input, acceptsURL)
      <==> service.requestType == "POST" && !acceptsURL(service.requestURL)
  {
  }

  /** The corrected shaping never crashes: every failure is a reported creation error. */
  lemma ShortenRequestNeverPanics(service: SiteConfig, input: string, acceptsURL: string -> bool)
    ensures ShortenRequest(service, input, acceptsURL) != Failure(NilRequestPanic)
    ensures ShortenRequest(service, input, acceptsURL).Failure? ==>
      ShortenRequest(service, input, acceptsURL).error.InvalidURL?
  {
  }

  /** The headers of a POST shortening: the form content type first under
      "Content-Type", a descriptor "Content-Type" added after it rather than
      replacing it, and every other header with its single value. */
  lemma FormHeaders(hs: map<string, string>)
    ensures var h := AddHeaders(map["Content-Type" := [FormContentType]], hs);
      && h.Keys == hs.Keys + {"Content-Type"}
      && h["Content-Type"] == [FormContentType] + (if "Content-Type" in hs then [hs["Content-Type"]] else [])
      && (forall k :: k in hs && k != "Content-Type" ==> h[k] == [hs[k]])
  {
  }

  /** Method dispatch, POST side: the request goes to the endpoint as
      written, its body decodes to exactly the substituted arguments, and its
      headers are the form content type plus the substituted headers. */
  lemma ShortenPostShape(service: SiteConfig, input: string, acceptsURL: string -> bool)
    requires service.requestType == "POST" && acceptsURL(service.requestURL)
    ensures var r := ShortenRequest(service, input, acceptsURL);
      var args := SubstituteValues(service.arguments, input);
      var hs := SubstituteValues(service.headers, input);
      && r.Success? && r.value.verb == "POST" && r.value.url == service.requestURL
      && r.value.body.FormBody?
      && FormEncoding.ParseForm(r.value.body.encoded)
         == Some(FormEncoding.PairBytes(args, FormEncoding.SortedKeys(args.Keys)))
      && r.value.headers == AddHeaders(map["Content-Type" := [FormContentType]], hs)
  {
    var args := SubstituteValues(service.arguments, input);
    var hs := SubstituteValues(service.headers, input);
    var base := map["Content-Type" := [FormContentType]];
    var encoded := FormEncoding.Encode(args);
    assert ShortenRequest(service, input, acceptsURL)
        == Success(Request("POST", service.requestURL, AddHeaders(base, hs), FormBody(encoded)));
    FormEncoding.EncodeRoundTrip(args);
  }

  /** Method dispatch, every other method: a GET without body whose URL is
      the endpoint, '?' (present even without arguments) and the encoded
      substituted arguments. */
  lemma ShortenGetURL(service: SiteConfig, input: string, acceptsURL: string -> bool)
    requires service.requestType != "POST"
    requires acceptsURL(service.requestURL + "?" + FormEncoding.Encode(SubstituteValues(service.arguments, input)))
    ensures var r := ShortenRequest(service, input, acceptsURL);
      && r.Success? && r.value.verb == "GET" && r.value.body == NoBody
      && r.value.url == service.requestURL + "?" + FormEncoding.Encode(SubstituteValues(service.arguments, input))
  {
  }

  /** The headers of a GET are exactly the substituted ones. */
  lemma ShortenGetShape(service: SiteConfig, input: string, acceptsURL: string -> bool)
    requires service.requestType != "POST"
    requires acceptsURL(service.requestURL + "?" + FormEncoding.Encode(SubstituteValues(service.arguments, input)))
    ensures var r := ShortenRequest(service, input, acceptsURL);
      var hs := SubstituteValues(service.headers, input);
      && r.Success?
      && r.value.headers.Keys == hs.Keys
      && (forall k :: k in hs ==> r.value.headers[k] == [hs[k]])
  {
    var args := SubstituteValues(service.arguments, input);
    var hs := SubstituteValues(service.headers, input);
    var full := service.requestURL + "?" + FormEncoding.Encode(args);
    var empty: Headers := map[];
    assert ShortenRequest(service, input, acceptsURL)
        == Success(Request("GET", full, AddHeaders(empty, hs), NoBody));
    PlainHeaders(hs);
  }

  /** Without a base, adding headers gives each exactly its one value. */
  lemma PlainHeaders(hs: map<string, string>)
    ensures var empty: Headers := map[];
      var h := AddHeaders(empty, hs);
      h.Keys == hs.Keys && forall k :: k in hs ==> h[k] == [hs[k]]
  {
  }

  /** Without arguments a GET still carries the '?'. */
  lemma ShortenGetWithoutArguments(service: SiteConfig, input: string, acceptsURL: string -> bool)
    requires service.requestType != "POST" && service.arguments == map[]
    requires acceptsURL(service.requestURL + "?")
    ensures var r := ShortenRequest(service, input, acceptsURL);
      r.Success? && r.value.url == service.requestURL + "?"
  {
    var args := SubstituteValues(service.arguments, input);
    assert args == map[];
    FormEncoding.EncodeEmpty();
    assert FormEncoding.Encode(args) == "";
    assert service.requestURL + "?" + FormEncoding.Encode(args) == service.requestURL + "?";
    ShortenGetURL(service, input, acceptsURL);
  }

  /** A GET shortener whose only argument is the placeholder sends the
      input percent-encoded as that argument's value, e.g. `?url=` followed
      by `https%3A%2F%2Fa.io%2Fx` for `https://a.io/x`
      (FormEncoding.EscapeURLExample). */
  lemma ShortenGetSingleArgument(service: SiteConfig, input: string, acceptsURL: string -> bool, k: string)
    requires service.requestType != "POST" && service.arguments == map[k := InputPlaceholder]
    requires acceptsURL(service.requestURL + "?" + (FormEncoding.QueryEscape(k) + "=" + FormEncoding.QueryEscape(input)))
    ensures var r := ShortenRequest(service, input, acceptsURL);
      && r.Success?
      && r.value.url == service.requestURL + "?" + (FormEncoding.QueryEscape(k) + "=" + FormEncoding.QueryEscape(input))
  {
    SubstituteSingle(k, input);
    FormEncoding.EncodeSingle(k, input);
    ShortenGetURL(service, input, acceptsURL);
  }

  lemma SubstituteSingle(k: string, input: string)
    ensures SubstituteValues(map[k := InputPlaceholder], input) == map[k := input]
  {
    SubstituteWholeValue(input);
  }

  // ------------------------------------------------------------- uploads

  /** The logical content of the multipart body: the file part under the
      descriptor's field name ("file" when it names none) with the base name
      of the path as its filename, then every argument as a plain text field,
      verbatim. */
  function MultipartFormFor(service: SiteConfig, filePath: string, content: seq<FormEncoding.byte>)
    : MultipartForm
  {
    var field := if service.fileFormName == "" then "file" else service.fileFormName;
    MultipartForm(field, Paths.Base(filePath), content, service.arguments)
  }

  /** A header-field token character, as http.NewRequest checks methods. */
  predicate IsTokenChar(c: char)
  {
    ('a' <= c <= 'z') || ('A' <= c <= 'Z') || ('0' <= c <= '9')
    || c in "!#$%&'*+-.^_`|~"
  }

  predicate IsValidMethod(m: string)
  {
    |m| > 0 && forall i :: 0 <= i < |m| ==> IsTokenChar(m[i])
  }

  /** The upload request: the descriptor's method as written ("" meaning
      GET), the endpoint as written, the multipart body, the multipart
      content type, and then every descriptor header set over it, verbatim. */
  function UploadRequest(service: SiteConfig, filePath: string, content: seq<FormEncoding.byte>,
                         boundary: string, acceptsURL: string -> bool)
    : Result<Request, RequestError>
  {
    var verb := if service.requestType == "" then "GET" else service.requestType;
    if !IsValidMethod(verb) then Failure(InvalidMethod(verb))
    else if !acceptsURL(service.requestURL) then Failure(InvalidURL(service.requestURL))
    else
      var base := map["Content-Type" := ["multipart/form-data; boundary=" + boundary]];
      Success(Request(verb, service.requestURL, SetHeaders(base, service.headers),
                      MultipartBody(MultipartFormFor(service, filePath, content))))
  }

  /** What an upload request carries: the file part is named by the
      descriptor or "file", announces the last element of the path as its
      filename, and the arguments and headers are taken over without any
      `$input$` substitution; a descriptor "Content-Type" header replaces the
      multipart content type. */
  lemma UploadRequestShape(service: SiteConfig, filePath: string, content: seq<FormEncoding.byte>,
                           boundary: string, acceptsURL: string -> bool)
    requires UploadRequest(service, filePath, content, boundary, acceptsURL).Success?
    ensures var req := UploadRequest(service, filePath, content, boundary, acceptsURL).value;
      && req.body.MultipartBody?
      && req.body.form.fileField == (if service.fileFormName == "" then "file" else service.fileFormName)
      && req.body.form.fileField != ""
      && req.body.form.fileName == Paths.Base(filePath)
      && ('/' !in req.body.form.fileName || req.body.form.fileName == "/")
      && req.body.form.content == content
      && req.body.form.fields == service.arguments
      && (forall k :: k in service.headers ==> req.headers[k] == [service.headers[k]])
      && ("Content-Type" !in service.headers ==>
            req.headers["Content-Type"] == ["multipart/form-data; boundary=" + boundary])
      && req.verb == (if service.requestType == "" then "GET" else service.requestType)
  {
    var b := Paths.Base(filePath);
    if b != "/" && '/' in b {
      assert Text.HasChar(b, '/');
    }
  }

  /** When the upload request cannot be created: exactly for a method that is
      not a token (after "" became GET), reported first, and otherwise for an
      endpoint the URL parser rejects. */
  lemma UploadRequestFailures(service: SiteConfig, filePath: string, content: seq<FormEncoding.byte>,
                              boundary: string, acceptsURL: string -> bool)
    ensures var verb := if service.requestType == "" then "GET" else service.requestType;
      var r := UploadRequest(service, filePath, content, boundary, acceptsURL);
      && (r.Failure? <==> !IsValidMethod(verb) || !acceptsURL(service.requestURL))
      && (!IsValidMethod(verb) ==> r == Failure(InvalidMethod(verb)))
      && (IsValidMethod(verb) && !acceptsURL(service.requestURL) ==>
            r == Failure(InvalidURL(service.requestURL)))
  {
  }

  /** The empty method is sent as GET rather than refused. */
  lemma UploadEmptyMethodIsGet(service: SiteConfig, filePath: string, content: seq<FormEncoding.byte>,
                               boundary: string, acceptsURL: string -> bool)
    requires acceptsURL(service.requestURL) && service.requestType == ""
    ensures var r := UploadRequest(service, filePath, content, boundary, acceptsURL);
      r.Success? && r.value.verb == "GET"
  {
    var get := "GET";
    assert IsValidMethod(get) by {
      assert IsTokenChar(get[0]) && IsTokenChar(get[1]) && IsTokenChar(get[2]);
    }
  }

  /** A method with a space in it is refused, before the URL is looked at. */
  lemma UploadMethodWithSpaceRefused(service: SiteConfig, filePath: string, content: seq<FormEncoding.byte>,
                                     boundary: string, acceptsURL: string -> bool, i: nat)
    requires i < |service.requestType| && service.requestType[i] == ' '
    ensures UploadRequest(service, filePath, content, boundary, acceptsURL)
         == Failure(InvalidMethod(service.requestType))
  {
    assert !IsTokenChar(service.requestType[i]);
  }

  /** The file part announces the last element of the path, e.g. `shot.png`
      for `/tmp/caplet/shot.png`. */
  lemma UploadFileName(service: SiteConfig, dir: string, name: string, content: seq<FormEncoding.byte>)
    requires |name| > 0 && !Text.HasChar(name, '/')
    ensures MultipartFormFor(service, dir + "/" + name, content).fileName == name
  {
    Paths.BaseLastElement(dir, name);
  }
}
