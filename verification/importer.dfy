/** Importing a ShareX custom-uploader file (config.go, ExtractJSONKeys and
    ImportSXCU): the document's fields become a descriptor, the `$json:key$`
    placeholders of its URL field become the extraction pattern, and the
    descriptor is merged into the configuration as the new default of its
    category. Reading the files is outside the model: the parsed document,
    the loaded configuration and the success of the final write are inputs. */
module Importer {
  import opened Wrappers
  import opened Text
  import opened Config

  /** A decoded JSON value. Numbers keep their text: the importer only ever
      asks whether a value is a string or an object. */
  datatype Json =
    | JNull
    | JBool(b: bool)
    | JNumber(text: string)
    | JString(s: string)
    | JArray(items: seq<Json>)
    | JObject(members: map<string, Json>)

  // ---------------------------------------------------------- placeholders

  const PlaceholderOpen: string := "$json:"

  /** The length of the run of word characters starting at `j`. */
  function WordRun(s: string, j: nat): (n: nat)
    ensures j + n <= |s| || (j >= |s| && n == 0)
    ensures forall x :: j <= x < j + n ==> IsWordChar(s[x])
    ensures j + n < |s| ==> !IsWordChar(s[j + n])
    decreases |s| - j
  {
    if j < |s| && IsWordChar(s[j]) then 1 + WordRun(s, j + 1) else 0
  }

  /** The end of a match of `\$json:([a-zA-Z0-9_]+)\$` starting at `i`. The
      greedy run of word characters can only be followed by the closing '$'
      where it stops, since '$' is not a word character. */
  function PlaceholderAt(s: string, i: nat): (r: Option<nat>)
    ensures r.Some? ==> i + |PlaceholderOpen| + 2 <= r.value <= |s|
  {
    if OccursAt(PlaceholderOpen, s, i) then
      var n := WordRun(s, i + |PlaceholderOpen|);
      var close := i + |PlaceholderOpen| + n;
      if n >= 1 && close < |s| && s[close] == '$' then Some(close + 1) else None
    else None
  }

  /** Every match is `$json:` + a word + `$`. */
  lemma PlaceholderShape(s: string, i: nat)
    requires PlaceholderAt(s, i).Some?
    ensures var m := s[i..PlaceholderAt(s, i).value];
      && IsPrefix(PlaceholderOpen, m)
      && IsWord(m[|PlaceholderOpen|..|m| - 1])
      && m == PlaceholderOpen + m[|PlaceholderOpen|..|m| - 1] + "$"
  {
    var e := PlaceholderAt(s, i).value;
    var m := s[i..e];
    var w := m[|PlaceholderOpen|..|m| - 1];
    assert forall x :: 0 <= x < |w| ==> w[x] == s[i + |PlaceholderOpen| + x];
    assert m == m[..|PlaceholderOpen|] + w + m[|m| - 1..];
  }

  /** `FindAllString(s, -1)` from position `i`: leftmost matches, each search
      resuming where the previous match ended. */
  function FindAllFrom(s: string, i: nat): seq<string>
    decreases |s| - i
  {
    if i >= |s| then []
    else match PlaceholderAt(s, i)
      case Some(e) => [s[i..e]] + FindAllFrom(s, e)
      case None => FindAllFrom(s, i + 1)
  }

  function FindAll(s: string): seq<string>
  {
    FindAllFrom(s, 0)
  }

  /** The key of one match, as ExtractJSONKeys computes it: every `$json:`
      removed, then every `$` removed. */
  function KeyOf(m: string): string
  {
    ReplaceAll(ReplaceAll(m, PlaceholderOpen, ""), "$", "")
  }

  /** On a match, the two removals leave exactly the word between the
      delimiters. */
  lemma KeyOfPlaceholder(w: string)
    requires IsWord(w)
    ensures KeyOf(PlaceholderOpen + w + "$") == w
  {
    var tail := w + "$";
    assert forall x :: 0 <= x < |tail| - 1 ==> tail[x] == w[x];
    assert PlaceholderOpen + w + "$" == PlaceholderOpen + tail;
    StripOpen(tail);
    StripDollar(w);
  }

  /** The leading `$json:` of a match is the only one it holds. */
  lemma StripOpen(tail: string)
    requires |tail| > 0 && tail[|tail| - 1] == '$'
    requires forall x :: 0 <= x < |tail| - 1 ==> tail[x] != '$'
    ensures ReplaceAll(PlaceholderOpen + tail, PlaceholderOpen, "") == tail
  {
    var m := PlaceholderOpen + tail;
    assert IsPrefix(PlaceholderOpen, m) by {
      assert m[..|PlaceholderOpen|] == PlaceholderOpen;
    }
    assert m[|PlaceholderOpen|..] == tail;
    ReplaceAllDollarless(tail);
  }

  /** Removing every '$' from a '$'-free text followed by one '$'. */
  lemma {:induction false} StripDollar(w: string)
    requires forall x :: 0 <= x < |w| ==> w[x] != '$'
    ensures ReplaceAll(w + "$", "$", "") == w
    decreases |w|
  {
    var s := w + "$";
    if |w| == 0 {
      assert s == "$";
      ReplaceAllWhole("$", "");
    } else {
      assert !IsPrefix("$", s) by {
        assert s[0] == w[0];
      }
      ReplaceAllStep(s, "$", "");
      assert s[1..] == w[1..] + "$";
      StripDollar(w[1..]);
      assert [w[0]] + w[1..] == w;
    }
  }

  /** A word followed by '$' holds no `$json:`. */
  lemma ReplaceAllDollarless(tail: string)
    requires |tail| > 0 && tail[|tail| - 1] == '$'
    requires forall x :: 0 <= x < |tail| - 1 ==> tail[x] != '$'
    ensures ReplaceAll(tail, PlaceholderOpen, "") == tail
  {
    forall i: int ensures !OccursAt(PlaceholderOpen, tail, i) {
      if 0 <= i && i + |PlaceholderOpen| <= |tail| {
        assert tail[i..i + |PlaceholderOpen|][0] == tail[i];
      }
    }
    ContainsIff(tail, PlaceholderOpen);
    ReplaceAllAbsent(tail, PlaceholderOpen, "");
  }

  /** The keys of the placeholders of one field, in order. */
  function FieldKeys(field: string): (r: seq<string>)
  {
    var ms := FindAll(field);
    seq(|ms|, k requires 0 <= k < |ms| => KeyOf(ms[k]))
  }

  // ------------------------------------------------------- ExtractJSONKeys

  /** The inner loop: the key of every match, in order, overwrites the
      "url" pattern. */
  function RecordKeys(regexps: map<string, string>, ks: seq<string>): map<string, string>
    decreases |ks|
  {
    if |ks| == 0 then regexps
    else RecordKeys(regexps["url" := KeyPattern(ks[0])], ks[1..])
  }

  /** One iteration of the outer loop: an empty field is skipped. */
  function RecordField(regexps: map<string, string>, field: string): map<string, string>
  {
    if field == "" then regexps else RecordKeys(regexps, FieldKeys(field))
  }

  /** The outer loop over the fields. */
  function RecordFields(regexps: map<string, string>, fields: seq<string>): map<string, string>
    decreases |fields|
  {
    if |fields| == 0 then regexps
    else RecordFields(RecordField(regexps, fields[0]), fields[1..])
  }

  function ExtractJSONKeys(fields: seq<string>): map<string, string>
  {
    RecordFields(map[], fields)
  }

  /** All keys of all fields, in the order the loops visit them. */
  function AllKeys(fields: seq<string>): seq<string>
    decreases |fields|
  {
    if |fields| == 0 then [] else FieldKeys(fields[0]) + AllKeys(fields[1..])
  }

  /** Running the inner loop over two runs of keys is running it over both. */
  lemma {:induction false} RecordKeysAppend(regexps: map<string, string>, ks: seq<string>, more: seq<string>)
    ensures RecordKeys(RecordKeys(regexps, ks), more) == RecordKeys(regexps, ks + more)
    decreases |ks|
  {
    if |ks| > 0 {
      RecordKeysAppend(regexps["url" := KeyPattern(ks[0])], ks[1..], more);
      assert (ks + more)[1..] == ks[1..] + more;
    } else {
      assert ks + more == more;
    }
  }

  /** The inner loop leaves the pattern of the last key, or the previous
      map when there is none. */
  lemma {:induction false} RecordKeysLast(regexps: map<string, string>, ks: seq<string>)
    ensures |ks| == 0 ==> RecordKeys(regexps, ks) == regexps
    ensures |ks| > 0 ==> RecordKeys(regexps, ks) == regexps["url" := KeyPattern(ks[|ks| - 1])]
    decreases |ks|
  {
    if |ks| > 0 {
      RecordKeysLast(regexps["url" := KeyPattern(ks[0])], ks[1..]);
      if |ks| > 1 {
        assert ks[1..][|ks[1..]| - 1] == ks[|ks| - 1];
      }
    }
  }

  /** Both loops together run the inner loop over all keys at once: the
      skipped empty fields contribute none. */
  lemma {:induction false} RecordFieldsKeys(regexps: map<string, string>, fields: seq<string>)
    ensures RecordFields(regexps, fields) == RecordKeys(regexps, AllKeys(fields))
    decreases |fields|
  {
    if |fields| > 0 {
      var f := fields[0];
      var ks := FieldKeys(f);
      if f == "" {
        assert ks == [];
      }
      assert RecordField(regexps, f) == RecordKeys(regexps, ks);
      RecordFieldsKeys(RecordField(regexps, f), fields[1..]);
      RecordKeysAppend(regexps, ks, AllKeys(fields[1..]));
    }
  }

  /** The last placeholder wins: the result is empty when no field has a
      placeholder, and otherwise maps exactly "url" to the key pattern of
      the last placeholder of the last field that has one. */
  lemma ExtractJSONKeysLastWins(fields: seq<string>)
    ensures var ks := AllKeys(fields);
      && (|ks| == 0 ==> ExtractJSONKeys(fields) == map[])
      && (|ks| > 0 ==> ExtractJSONKeys(fields) == map["url" := KeyPattern(ks[|ks| - 1])])
  {
    RecordFieldsKeys(map[], fields);
    RecordKeysLast(map[], AllKeys(fields));
  }

  /** Every key the importer finds is a word, so the pattern it writes is
      always a key pattern. */
  lemma {:induction false} FindAllKeysAreWords(s: string, i: nat)
    ensures forall k :: 0 <= k < |FindAllFrom(s, i)| ==>
      && IsWord(KeyOf(FindAllFrom(s, i)[k]))
      && FindAllFrom(s, i)[k] == PlaceholderOpen + KeyOf(FindAllFrom(s, i)[k]) + "$"
    decreases |s| - i
  {
    if i < |s| {
      match PlaceholderAt(s, i)
      case Some(e) =>
        FindAllKeysAreWords(s, e);
        PlaceholderShape(s, i);
        var m := s[i..e];
        var w := m[|PlaceholderOpen|..|m| - 1];
        KeyOfPlaceholder(w);
        assert FindAllFrom(s, i) == [m] + FindAllFrom(s, e);
      case None =>
        FindAllKeysAreWords(s, i + 1);
    }
  }

  lemma {:induction false} AllKeysAreWords(fields: seq<string>)
    ensures forall k :: 0 <= k < |AllKeys(fields)| ==> IsWord(AllKeys(fields)[k])
    decreases |fields|
  {
    if |fields| > 0 {
      AllKeysAreWords(fields[1..]);
      FindAllKeysAreWords(fields[0], 0);
      var head := FieldKeys(fields[0]);
      assert forall k :: 0 <= k < |head| ==> IsWord(head[k]);
      assert AllKeys(fields) == head + AllKeys(fields[1..]);
    }
  }

  /** A run of word characters ended by a non-word character. */
  lemma {:induction false} WordRunOfWord(s: string, j: nat, n: nat)
    requires j + n < |s| && !IsWordChar(s[j + n])
    requires forall x :: j <= x < j + n ==> IsWordChar(s[x])
    ensures WordRun(s, j) == n
    decreases n
  {
    if n > 0 {
      WordRunOfWord(s, j + 1, n - 1);
    }
  }

  /** A placeholder of a word after any prefix is a match running to the end. */
  lemma PlaceholderAtEnd(prefix: string, w: string)
    requires IsWord(w)
    ensures var s := prefix + PlaceholderOpen + w + "$";
      PlaceholderAt(s, |prefix|) == Some(|s|)
  {
    var s := prefix + PlaceholderOpen + w + "$";
    var i := |prefix|;
    var j := i + |PlaceholderOpen|;
    assert OccursAt(PlaceholderOpen, s, i) by {
      assert s[i..j] == PlaceholderOpen;
    }
    assert forall x :: j <= x < j + |w| ==> s[x] == w[x - j];
    assert s[j + |w|] == '$';
    WordRunOfWord(s, j, |w|);
  }

  /** A field holding one placeholder after a stretch without '$' matches
      exactly that placeholder. */
  lemma FindAllSingle(prefix: string, w: string)
    requires forall x :: 0 <= x < |prefix| ==> prefix[x] != '$'
    requires IsWord(w)
    ensures FindAll(prefix + PlaceholderOpen + w + "$") == [PlaceholderOpen + w + "$"]
  {
    var m := PlaceholderOpen + w + "$";
    var s := prefix + PlaceholderOpen + w + "$";
    var i := |prefix|;
    assert FindAllFrom(s, i) == [m] by {
      PlaceholderAtEnd(prefix, w);
      assert s[i..|s|] == m;
      assert FindAllFrom(s, |s|) == [];
    }
    assert forall x :: 0 <= x < i ==> s[x] != '$' by {
      assert forall x :: 0 <= x < i ==> s[x] == prefix[x];
    }
    NoMatchBefore(s, 0, i);
  }

  /** Such a field, alone, makes the pattern for the placeholder's key: a
      URL field `https://x.io/?id=$json:url$` names the member `url`. */
  lemma SinglePlaceholderField(prefix: string, w: string)
    requires forall x :: 0 <= x < |prefix| ==> prefix[x] != '$'
    requires IsWord(w)
    ensures ExtractJSONKeys([prefix + PlaceholderOpen + w + "$"]) == map["url" := KeyPattern(w)]
  {
    var s := prefix + PlaceholderOpen + w + "$";
    FindAllSingle(prefix, w);
    KeyOfPlaceholder(w);
    assert FieldKeys(s) == [w];
    assert AllKeys([s]) == FieldKeys(s) + AllKeys([]);
    ExtractJSONKeysLastWins([s]);
  }

  /** No match can start inside a stretch without '$'. */
  lemma {:induction false} NoMatchBefore(s: string, i: nat, j: nat)
    requires i <= j <= |s|
    requires forall x :: i <= x < j ==> s[x] != '$'
    ensures FindAllFrom(s, i) == FindAllFrom(s, j)
    decreases j - i
  {
    if i < j {
      assert !OccursAt(PlaceholderOpen, s, i) by { assert s[i] != PlaceholderOpen[0]; }
      NoMatchBefore(s, i + 1, j);
    }
  }

  /** Every placeholder of a word is recognised where it starts, and the
      match ends right after its closing '$'. */
  lemma PlaceholderAtComplete(s: string, i: nat, w: string)
    requires IsWord(w)
    requires i + |PlaceholderOpen| + |w| + 1 <= |s|
    requires s[i..i + |PlaceholderOpen| + |w| + 1] == PlaceholderOpen + w + "$"
    ensures PlaceholderAt(s, i) == Some(i + |PlaceholderOpen| + |w| + 1)
  {
    var j := i + |PlaceholderOpen|;
    var m := PlaceholderOpen + w + "$";
    assert forall x :: i <= x < j + |w| + 1 ==> s[x] == m[x - i];
    assert OccursAt(PlaceholderOpen, s, i) by {
      assert forall x :: 0 <= x < |PlaceholderOpen| ==> s[i..j][x] == m[x];
    }
    assert forall x :: j <= x < j + |w| ==> s[x] == w[x - j];
    assert s[j + |w|] == '$';
    WordRunOfWord(s, j, |w|);
  }

  /** FindAllFrom skips to the leftmost match at or after `i`, takes it,
      and resumes right after it. */
  lemma {:induction false} FindAllFromLeftmost(s: string, i: nat, j: nat)
    requires i <= j && PlaceholderAt(s, j).Some?
    requires forall x :: i <= x < j ==> PlaceholderAt(s, x).None?
    ensures FindAllFrom(s, i) == [s[j..PlaceholderAt(s, j).value]] + FindAllFrom(s, PlaceholderAt(s, j).value)
    decreases j - i
  {
    if i < j {
      FindAllFromLeftmost(s, i + 1, j);
    }
  }

  /** FindAllFrom finds nothing exactly when no match starts at or after `i`. */
  lemma {:induction false} FindAllFromNone(s: string, i: nat)
    ensures FindAllFrom(s, i) == [] <==> forall x :: i <= x < |s| ==> PlaceholderAt(s, x).None?
    decreases |s| - i
  {
    if i < |s| {
      match PlaceholderAt(s, i)
      case Some(e) =>
        assert FindAllFrom(s, i) == [s[i..e]] + FindAllFrom(s, e);
      case None =>
        FindAllFromNone(s, i + 1);
    }
  }

  /** Matches do not overlap: in "$json:a$json:b$" the '$' closing the
      first placeholder cannot open the second, so only `a` is found and
      the result names the member `a`. */
  lemma NonOverlapExample(s: string)
    requires s == "$json:a$json:b$"
    ensures FindAll(s) == ["$json:a$"]
    ensures ExtractJSONKeys([s]) == map["url" := KeyPattern("a")]
  {
    assert OccursAt(PlaceholderOpen, s, 0);
    assert WordRun(s, 6) == 1 by { assert WordRun(s, 7) == 0; }
    assert PlaceholderAt(s, 0) == Some(8);
    NoMatchBefore(s, 8, 14);
    assert PlaceholderAt(s, 14).None?;
    assert FindAllFrom(s, 14) == FindAllFrom(s, 15) == [];
    assert FindAllFrom(s, 0) == [s[0..8]] + FindAllFrom(s, 8);
    assert FindAll(s) == [s[0..8]];
    assert s[0..8] == PlaceholderOpen + "a" + "$" == "$json:a$";
    assert IsWord("a");
    KeyOfPlaceholder("a");
    assert FieldKeys(s) == ["a"];
    assert AllKeys([s]) == FieldKeys(s) + AllKeys([]);
    ExtractJSONKeysLastWins([s]);
  }

  // --------------------------------------------------------------- import

  datatype ImportError =
    | ReadFailed                // the .sxcu file could not be read
    | ParseFailed               // it is not a JSON object (or null)
    | FieldPanic(field: string) // a required field is missing or not a string
    | LoadFailed                // the current configuration could not be loaded
    | WriteFailed               // the updated configuration could not be written

  /** What reading and decoding the .sxcu file yields. */
  datatype SxcuSource = Unreadable | Document(json: Option<Json>)   // None: not valid JSON

  /** The string members of an object; members of any other type are dropped. */
  function StringMembers(m: map<string, Json>): (r: map<string, string>)
    ensures r.Keys <= m.Keys
    ensures forall k :: k in m ==> (k in r <==> m[k].JString?)
    ensures forall k :: k in r ==> m[k] == JString(r[k])
  {
    map k | k in m && m[k].JString? :: m[k].s
  }

  /** `doc[name].(string)` with its ok flag. */
  function StringField(doc: map<string, Json>, name: string): Option<string>
  {
    if name in doc && doc[name].JString? then Some(doc[name].s) else None
  }

  /** The string members of `doc[name]` when that is an object, else none. */
  function StringMap(doc: map<string, Json>, name: string): map<string, string>
  {
    if name in doc && doc[name].JObject? then StringMembers(doc[name].members) else map[]
  }

  /** The descriptor an .sxcu document describes, with its category; the
      three unchecked type assertions of the program are the error cases. */
  function Descriptor(doc: map<string, Json>): Result<(SiteConfig, bool), ImportError>
  {
    match StringField(doc, "DestinationType")
    case None => Failure(FieldPanic("DestinationType"))
    case Some(destination) =>
      var isShortener := Contains(destination, "URLShortener");
      var urlField := StringField(doc, "URL").GetOr("");
      var regexps := ExtractJSONKeys([urlField]);
      match StringField(doc, "Name")
      case None => Failure(FieldPanic("Name"))
      case Some(name) =>
        match StringField(doc, "RequestURL")
        case None => Failure(FieldPanic("RequestURL"))
        case Some(requestURL) =>
          var site := SiteConfig(
            name := name,
            requestURL := requestURL,
            requestType := StringField(doc, "RequestMethod").GetOr("POST"),
            fileFormName := StringField(doc, "FileFormName").GetOr(""),
            responseType := "regex",
            regexps := regexps,
            headers := StringMap(doc, "Headers"),
            arguments := StringMap(doc, "Arguments"));
          Success((site, isShortener))
  }

  /** The configuration with the descriptor added under its name and made the
      default of its category. */
  function Merge(config: Config, site: SiteConfig, isShortener: bool): Config
  {
    if isShortener then
      config.(defaultURLShortener := site.name,
              shorteners := config.shorteners[site.name := site])
    else
      config.(defaultFileUpload := site.name,
              defaultImageUpload := site.name,
              uploaders := config.uploaders[site.name := site])
  }

  /** ImportSXCU: the configuration it writes, or why it stopped. */
  function ImportSXCU(source: SxcuSource, loaded: Option<Config>, writeSucceeds: bool)
    : Result<Config, ImportError>
  {
    match source
    case Unreadable => Failure(ReadFailed)
    case Document(None) => Failure(ParseFailed)
    case Document(Some(json)) =>
      if !(json.JObject? || json.JNull?) then Failure(ParseFailed)
      else
        var doc := if json.JObject? then json.members else map[];
        match Descriptor(doc)
        case Failure(e) => Failure(e)
        case Success((site, isShortener)) =>
          match loaded
          case None => Failure(LoadFailed)
          case Some(config) =>
            if !writeSucceeds then Failure(WriteFailed)
            else Success(Merge(config, site, isShortener))
  }

  /** The merge adds or replaces exactly one descriptor of one category,
      makes it that category's default, and leaves everything else as it
      was. */
  lemma MergeSpec(config: Config, site: SiteConfig, isShortener: bool)
    ensures var c := Merge(config, site, isShortener);
      && (isShortener ==>
            && c.shorteners.Keys == config.shorteners.Keys + {site.name}
            && c.shorteners[site.name] == site
            && (forall n :: n in config.shorteners && n != site.name ==> c.shorteners[n] == config.shorteners[n])
            && c.defaultURLShortener == site.name
            && c.uploaders == config.uploaders
            && c.defaultFileUpload == config.defaultFileUpload
            && c.defaultImageUpload == config.defaultImageUpload)
      && (!isShortener ==>
            && c.uploaders.Keys == config.uploaders.Keys + {site.name}
            && c.uploaders[site.name] == site
            && (forall n :: n in config.uploaders && n != site.name ==> c.uploaders[n] == config.uploaders[n])
            && c.defaultFileUpload == site.name && c.defaultImageUpload == site.name
            && c.shorteners == config.shorteners
            && c.defaultURLShortener == config.defaultURLShortener)
      && c.historyPath == config.historyPath && c.saveDir == config.saveDir
      && c.organized == config.organized
  {
  }

  /** Merging keeps every default resolvable. */
  lemma MergeKeepsDefaultsResolved(config: Config, site: SiteConfig, isShortener: bool)
    requires DefaultsResolve(config)
    ensures DefaultsResolve(Merge(config, site, isShortener))
  {
  }

  /** What a successful import writes: the document's descriptor, with the
      documented defaults, merged into the loaded configuration. */
  lemma ImportSpec(source: SxcuSource, loaded: Option<Config>, writeSucceeds: bool)
    ensures var r := ImportSXCU(source, loaded, writeSucceeds);
      r.Success? <==>
        && source.Document? && source.json.Some?
        && (source.json.value.JObject? || source.json.value.JNull?)
        && Descriptor(if source.json.value.JObject? then source.json.value.members else map[]).Success?
        && loaded.Some? && writeSucceeds
    ensures var r := ImportSXCU(source, loaded, writeSucceeds);
      r.Success? ==>
        var doc := if source.json.value.JObject? then source.json.value.members else map[];
        var (site, isShortener) := Descriptor(doc).value;
        && r.value == Merge(loaded.value, site, isShortener)
        && isShortener == Contains(doc["DestinationType"].s, "URLShortener")
        && site.name == doc["Name"].s && site.requestURL == doc["RequestURL"].s
        && site.responseType == "regex"
        && DescriptorFields(doc, site)
        && (site.regexps == map[] || exists w :: IsWord(w) && site.regexps == map["url" := KeyPattern(w)])
  {
    if ImportSXCU(source, loaded, writeSucceeds).Success? {
      var json := source.json.value;
      var doc := if json.JObject? then json.members else map[];
      DescriptorSpec(doc);
      var urlField := StringField(doc, "URL").GetOr("");
      ExtractJSONKeysLastWins([urlField]);
      AllKeysAreWords([urlField]);
      var ks := AllKeys([urlField]);
      if |ks| > 0 {
        assert IsWord(ks[|ks| - 1]);
      }
    }
  }

  /** How every field of a descriptor is read from the document: a string
      RequestMethod is taken over and an absent or non-string one means
      POST; a string FileFormName is taken over and otherwise the field is
      left empty; the headers and the arguments are exactly the string
      members of their objects; the pattern comes from the URL field's
      placeholders alone. */
  predicate DescriptorFields(doc: map<string, Json>, site: SiteConfig)
  {
    && (StringField(doc, "RequestMethod").Some? ==> site.requestType == StringField(doc, "RequestMethod").value)
    && (StringField(doc, "RequestMethod").None? ==> site.requestType == "POST")
    && (StringField(doc, "FileFormName").Some? ==> site.fileFormName == StringField(doc, "FileFormName").value)
    && (StringField(doc, "FileFormName").None? ==> site.fileFormName == "")
    && site.headers == StringMap(doc, "Headers")
    && site.arguments == StringMap(doc, "Arguments")
    && (forall k :: k in site.headers ==> doc["Headers"].members[k] == JString(site.headers[k]))
    && (forall k :: k in site.arguments ==> doc["Arguments"].members[k] == JString(site.arguments[k]))
    && site.regexps == ExtractJSONKeys([StringField(doc, "URL").GetOr("")])
  }

  /** A document yields a descriptor exactly when DestinationType, Name and
      RequestURL are strings, and then its fields are read as
      DescriptorFields says, the category being a shortener exactly when
      DestinationType contains "URLShortener". */
  lemma DescriptorSpec(doc: map<string, Json>)
    ensures Descriptor(doc).Success? <==>
      StringField(doc, "DestinationType").Some? && StringField(doc, "Name").Some?
      && StringField(doc, "RequestURL").Some?
    ensures Descriptor(doc).Success? ==>
      var (site, isShortener) := Descriptor(doc).value;
      && site.name == StringField(doc, "Name").value
      && site.requestURL == StringField(doc, "RequestURL").value
      && isShortener == Contains(StringField(doc, "DestinationType").value, "URLShortener")
      && DescriptorFields(doc, site)
  {
  }

  /** A JSON null decodes to a nil map, whose first type assertion fails:
      the import stops at "DestinationType". */
  lemma NullDocumentPanics(loaded: Option<Config>, writeSucceeds: bool)
    ensures ImportSXCU(Document(Some(JNull)), loaded, writeSucceeds) == Failure(FieldPanic("DestinationType"))
  {
  }

  /** Importing a shortener into the default configuration: it becomes the
      default shortener and the uploaders stay as they were. */
  lemma ImportShortenerExample(name: string, requestURL: string)
    ensures var doc := map["DestinationType" := JString("URLShortener"), "Name" := JString(name),
                           "RequestURL" := JString(requestURL)];
      var r := ImportSXCU(Document(Some(JObject(doc))), Some(DefaultConfig()), true);
      && r.Success?
      && r.value.defaultURLShortener == name
      && r.value.shorteners[name].requestType == "POST"
      && r.value.shorteners[name].regexps == map[]
      && r.value.uploaders == DefaultConfig().uploaders
  {
    var doc := map["DestinationType" := JString("URLShortener"), "Name" := JString(name),
                   "RequestURL" := JString(requestURL)];
    ShortenerDestination();
    NoPlaceholderField();
    assert StringField(doc, "URL") == None;
    var site := SiteConfig(name, requestURL, "POST", "", "regex", map[], map[], map[]);
    assert Descriptor(doc) == Success((site, true));
  }

  lemma ShortenerDestination()
    ensures Contains("URLShortener", "URLShortener")
  {
    ContainsIff("URLShortener", "URLShortener");
    assert OccursAt("URLShortener", "URLShortener", 0);
  }

  /** A document without a URL field yields no pattern. */
  lemma NoPlaceholderField()
    ensures ExtractJSONKeys([""]) == map[]
  {
    assert AllKeys([""]) == FieldKeys("") + AllKeys([]);
    assert FindAll("") == [];
    ExtractJSONKeysLastWins([""]);
  }
}
