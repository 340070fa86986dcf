/** Response extraction (main.go, ShortenURL and UploadFile): the descriptor's
    "url" pattern is compiled, its first submatch taken from the reply body,
    and every backslash escape in it undone. The patterns the program writes
    itself, `"key":"(.+?)"`, are evaluated here exactly as Go's leftmost-first
    regexp engine evaluates them; every other pattern is handed to an
    engine the model does not interpret. */
module Extract {
  import opened Wrappers
  import opened Text
  import opened Config

  // ------------------------------------------------------------ key patterns

  const PatternTail: string := "\":\"(.+?)\""

  /** Recognises `"key":"(.+?)"` for a key of word characters, the only form
      in which every character of the key is a literal of the pattern. */
  function ParseKeyPattern(p: string): (r: Option<string>)
    ensures r.Some? ==> IsWord(r.value)
  {
    if |p| >= |PatternTail| + 2 && p[0] == '"' && p[|p| - |PatternTail|..] == PatternTail
       && IsWord(p[1..|p| - |PatternTail|])
    then Some(p[1..|p| - |PatternTail|])
    else None
  }

  /** Recognising a key pattern and writing one are inverse to each other. */
  lemma KeyPatternRoundTrip(key: string, p: string)
    ensures IsWord(key) ==> ParseKeyPattern(KeyPattern(key)) == Some(key)
    ensures ParseKeyPattern(p).Some? ==> KeyPattern(ParseKeyPattern(p).value) == p
  {
    var q := KeyPattern(key);
    assert q == ['"'] + key + PatternTail;
    assert q[1..|q| - |PatternTail|] == key;
    assert q[|q| - |PatternTail|..] == PatternTail;
    if ParseKeyPattern(p).Some? {
      var k := ParseKeyPattern(p).value;
      assert p == p[..1] + p[1..|p| - |PatternTail|] + p[|p| - |PatternTail|..];
    }
  }

  // ------------------------------------------------- the key-pattern matcher

  /** The literal part of a key pattern: `"key":"`. */
  function Opening(key: string): string
  {
    "\"" + key + "\":\""
  }

  predicate NoNewline(s: string, lo: int, hi: int)
    requires 0 <= lo <= hi <= |s|
  {
    forall j :: lo <= j < hi ==> s[j] != '\n'
  }

  /** A match of `"key":"(.+?)"` starting at `i` whose closing quote is at
      `e`: the opening occurs at `i`, the capture is not empty, holds no line
      break (`.` does not match one), and is followed by a double quote. */
  predicate Candidate(body: string, key: string, i: nat, e: nat)
  {
    var c := i + |Opening(key)|;
    && OccursAt(Opening(key), body, i)
    && c < e < |body|
    && body[e] == '"'
    && NoNewline(body, c, e)
  }

  /** The first double quote at or after `j`, provided no line break comes
      before it. */
  function CloseQuote(body: string, j: nat): (r: Option<nat>)
    decreases |body| - j
  {
    if j >= |body| then None
    else if body[j] == '"' then Some(j)
    else if body[j] == '\n' then None
    else CloseQuote(body, j + 1)
  }

  lemma {:induction false} CloseQuoteSpec(body: string, j: nat)
    ensures CloseQuote(body, j).Some? ==>
      var k := CloseQuote(body, j).value;
      && j <= k < |body| && body[k] == '"' && NoNewline(body, j, k)
      && forall x :: j <= x < k ==> body[x] != '"'
    ensures CloseQuote(body, j).None? ==>
      forall k :: j <= k < |body| && body[k] == '"' ==> !NoNewline(body, j, k)
    decreases |body| - j
  {
    if j < |body| && body[j] != '"' && body[j] != '\n' {
      CloseQuoteSpec(body, j + 1);
      if CloseQuote(body, j + 1).None? {
        forall k | j <= k < |body| && body[k] == '"'
          ensures !NoNewline(body, j, k)
        {
          assert k != j;
          assert !NoNewline(body, j + 1, k);
        }
      }
    }
  }

  /** The closing quote of the lazy capture of a match starting at `i`. */
  function MatchAt(body: string, key: string, i: nat): Option<nat>
  {
    var c := i + |Opening(key)|;
    if OccursAt(Opening(key), body, i) && c < |body| && body[c] != '\n'
    then CloseQuote(body, c + 1)
    else None
  }

  /** At one start the lazy capture ends at the earliest closing quote that
      any match from that start could use. */
  lemma MatchAtSpec(body: string, key: string, i: nat)
    ensures MatchAt(body, key, i).Some? ==>
      && Candidate(body, key, i, MatchAt(body, key, i).value)
      && forall e :: Candidate(body, key, i, e) ==> MatchAt(body, key, i).value <= e
    ensures MatchAt(body, key, i).None? ==> forall e :: !Candidate(body, key, i, e)
  {
    var c := i + |Opening(key)|;
    if OccursAt(Opening(key), body, i) && c < |body| && body[c] != '\n' {
      CloseQuoteSpec(body, c + 1);
      forall e: nat | Candidate(body, key, i, e)
        ensures MatchAt(body, key, i).Some? && MatchAt(body, key, i).value <= e
      {
        assert NoNewline(body, c + 1, e);
      }
    }
  }

  /** Leftmost-first search from `i` on: the first start with a match, and
      its lazy capture. The result is (start, closing quote). */
  function KeyMatchFrom(body: string, key: string, i: nat): Option<(nat, nat)>
    decreases |body| + 1 - i
  {
    if i > |body| then None
    else match MatchAt(body, key, i)
      case Some(e) => Some((i, e))
      case None => KeyMatchFrom(body, key, i + 1)
  }

  /** The search finds the leftmost start at which the pattern matches and
      the shortest capture there; it finds nothing exactly when the pattern
      matches nowhere from `i` on. */
  lemma {:induction false} KeyMatchFromSpec(body: string, key: string, i: nat)
    ensures KeyMatchFrom(body, key, i).Some? ==>
      var (s, e) := KeyMatchFrom(body, key, i).value;
      && i <= s && Candidate(body, key, s, e)
      && (forall e' :: Candidate(body, key, s, e') ==> e <= e')
      && (forall s', e' :: i <= s' < s ==> !Candidate(body, key, s', e'))
    ensures KeyMatchFrom(body, key, i).None? ==>
      forall s', e' :: i <= s' ==> !Candidate(body, key, s', e')
    decreases |body| + 1 - i
  {
    MatchAtSpec(body, key, i);
    if i <= |body| && MatchAt(body, key, i).None? {
      KeyMatchFromSpec(body, key, i + 1);
    }
  }

  /** Go's FindStringSubmatch for a key pattern: no match gives no
      submatches; a match gives the whole match and the capture. */
  function KeySubmatches(body: string, key: string): (r: seq<string>)
    ensures |r| == 0 || |r| == 2
  {
    match KeyMatchFrom(body, key, 0)
    case None => []
    case Some((s, e)) =>
      if s + |Opening(key)| <= e < |body| then [body[s..e + 1], body[s + |Opening(key)|..e]]
      else []
  }

  /** A slice splits at any point in between. */
  lemma SliceSplit(b: string, i: nat, j: nat, k: nat)
    requires i <= j <= k <= |b|
    ensures b[i..k] == b[i..j] + b[j..k]
  {
  }

  /** The shortest match from a start: its capture is non-empty, has no line
      break, and no double quote after its first character, and the whole
      match is the opening, the capture and the closing quote. */
  lemma ShortestCaptureShape(body: string, key: string, s: nat, e: nat)
    requires Candidate(body, key, s, e)
    requires forall e' :: Candidate(body, key, s, e') ==> e <= e'
    ensures var c := s + |Opening(key)|;
      var v := body[c..e];
      && |v| > 0
      && (forall x :: 0 <= x < |v| ==> v[x] != '\n')
      && (forall x :: 0 < x < |v| ==> v[x] != '"')
      && body[s..e + 1] == Opening(key) + v + "\""
  {
    var c := s + |Opening(key)|;
    var v := body[c..e];
    forall x | 0 < x < |v| ensures v[x] != '"' {
      assert v[x] == body[c + x];
      assert NoNewline(body, c, c + x);
      assert body[c + x] == '"' ==> Candidate(body, key, s, c + x);
    }
    assert body[s..c] == Opening(key);
    assert body[e..e + 1] == "\"";
    SliceSplit(body, s, c, e + 1);
    SliceSplit(body, c, e, e + 1);
    AppendAssoc(Opening(key), v, "\"");
  }

  /** What the submatches of a key pattern are: two exactly when the
      pattern matches somewhere, and then the capture is a non-empty text
      without line breaks, and without double quotes after its first
      character, that follows the leftmost opening `"key":"` able to start
      a match. */
  lemma KeySubmatchesSpec(body: string, key: string)
    ensures |KeySubmatches(body, key)| == 2 <==> exists s, e :: Candidate(body, key, s, e)
    ensures |KeySubmatches(body, key)| == 2 ==>
      var v := KeySubmatches(body, key)[1];
      && |v| > 0
      && (forall x :: 0 <= x < |v| ==> v[x] != '\n')
      && (forall x :: 0 < x < |v| ==> v[x] != '"')
      && KeySubmatches(body, key)[0] == Opening(key) + v + "\""
  {
    KeyMatchFromSpec(body, key, 0);
    if KeyMatchFrom(body, key, 0).Some? {
      var (s, e) := KeyMatchFrom(body, key, 0).value;
      var c := s + |Opening(key)|;
      assert KeySubmatches(body, key) == [body[s..e + 1], body[c..e]];
      ShortestCaptureShape(body, key, s, e);
    }
  }

  /** Where the parts of `pre + o + value + "\"" + post` lie. */
  lemma SpliceLayout(pre: string, o: string, value: string, post: string)
    ensures var body := pre + o + value + "\"" + post;
      var s := |pre|;
      var c := s + |o|;
      var e := c + |value|;
      && e < |body| && body[e] == '"'
      && body[s..c] == o && body[c..e] == value
      && body[s..e + 1] == o + value + "\""
      && (forall x :: 0 <= x < s ==> body[x] == pre[x])
  {
    var m := o + value + "\"";
    var body := pre + o + value + "\"" + post;
    AppendAssoc(pre, o, value);
    AppendAssoc(pre, o + value, "\"");
    assert body == pre + m + post;
    assert body[|pre|..|pre| + |m|] == m;
  }

  /** No `"key":"` starts inside `pre` in the reply `pre + rest`. */
  predicate NoOpeningBefore(pre: string, rest: string, key: string)
  {
    forall s' :: 0 <= s' < |pre| ==> !OccursAt(Opening(key), pre + rest, s')
  }

  /** Text without double quotes cannot hold the start of an opening. */
  lemma QuoteFreeHasNoOpening(pre: string, rest: string, key: string)
    requires forall x :: 0 <= x < |pre| ==> pre[x] != '"'
    ensures NoOpeningBefore(pre, rest, key)
  {
    forall s' | 0 <= s' < |pre| ensures !OccursAt(Opening(key), pre + rest, s') {
      assert (pre + rest)[s'] == pre[s'];
      assert Opening(key)[0] == '"';
      if s' + |Opening(key)| <= |pre + rest| {
        assert (pre + rest)[s'..s' + |Opening(key)|][0] == pre[s'];
      }
    }
  }

  /** When no opening of the key starts before the member and the value has
      neither a double quote nor a line break, the capture is that value,
      whatever members come before or after it. */
  lemma KeySubmatchesSplice(pre: string, key: string, value: string, post: string)
    requires NoOpeningBefore(pre, Opening(key) + value + "\"" + post, key)
    requires |value| > 0
    requires forall x :: 0 <= x < |value| ==> value[x] != '"' && value[x] != '\n'
    ensures KeySubmatches(pre + Opening(key) + value + "\"" + post, key)
         == [Opening(key) + value + "\"", value]
  {
    SpliceLayout(pre, Opening(key), value, post);
    KeyMatchSplice(pre, key, value, post);
  }

  /** The search stops at the member: its opening is the leftmost, and its
      closing quote the first after the value. */
  lemma KeyMatchSplice(pre: string, key: string, value: string, post: string)
    requires NoOpeningBefore(pre, Opening(key) + value + "\"" + post, key)
    requires |value| > 0
    requires forall x :: 0 <= x < |value| ==> value[x] != '"' && value[x] != '\n'
    ensures KeyMatchFrom(pre + Opening(key) + value + "\"" + post, key, 0)
         == Some((|pre|, |pre| + |Opening(key)| + |value|))
  {
    var o := Opening(key);
    var body := pre + o + value + "\"" + post;
    var s := |pre|;
    var c := s + |o|;
    var e := c + |value|;
    SpliceLayout(pre, o, value, post);
    assert forall x :: c <= x < e ==> body[x] != '"' && body[x] != '\n' by {
      assert forall x :: c <= x < e ==> body[x] == value[x - c];
    }
    assert Candidate(body, key, s, e);
    assert forall s', e' :: 0 <= s' < s ==> !Candidate(body, key, s', e') by {
      ReplyAssoc(pre, Opening(key), value, post);
    }
    assert forall e' :: Candidate(body, key, s, e') ==> e <= e';
    LeftmostShortest(body, key, s, e);
  }

  /** The converse of KeyMatchFromSpec: the leftmost start of a match, with
      its shortest capture, is what the search finds. */
  lemma LeftmostShortest(body: string, key: string, s: nat, e: nat)
    requires Candidate(body, key, s, e)
    requires forall s', e' :: 0 <= s' < s ==> !Candidate(body, key, s', e')
    requires forall e' :: Candidate(body, key, s, e') ==> e <= e'
    ensures KeyMatchFrom(body, key, 0) == Some((s, e))
  {
    KeyMatchFromSpec(body, key, 0);
    var r := KeyMatchFrom(body, key, 0);
    assert r.Some?;
    var s1 := r.value.0;
    var e1 := r.value.1;
    assert s1 == s;
    assert e1 == e;
  }

  // --------------------------------------------------------------- evaluator

  /** A regular-expression engine for the patterns the model does not
      interpret: the submatches of the leftmost match (empty for no match),
      or None when the pattern does not compile. */
  type RegexEngine = (string, string) -> Option<seq<string>>

  /** `regexp.MustCompile(pattern).FindStringSubmatch(body)`: the empty
      pattern (what a missing "url" entry reads as) matches the empty text
      at the start and has no group; a key pattern is matched as above;
      anything else is the engine's. None is the panic of MustCompile. */
  function FindSubmatch(pattern: string, body: string, engine: RegexEngine): Option<seq<string>>
  {
    if pattern == "" then Some([""])
    else match ParseKeyPattern(pattern)
      case Some(key) => Some(KeySubmatches(body, key))
      case None => engine(pattern, body)
  }

  datatype ExtractError =
    | PatternPanic   // the pattern does not compile; MustCompile panics
    | NoCapture      // fewer than two submatches: no match, or no group

  /** The extracted URL: the first capture with its escapes undone. */
  function ExtractURL(pattern: string, body: string, engine: RegexEngine): Result<string, ExtractError>
  {
    match FindSubmatch(pattern, body, engine)
    case None => Failure(PatternPanic)
    case Some(ms) => if |ms| < 2 then Failure(NoCapture) else Success(Unescape(ms[1]))
  }

  /** A descriptor without a "url" pattern never yields a URL, whatever the
      reply: its empty pattern has no capture group. */
  lemma ExtractWithoutPattern(body: string, engine: RegexEngine)
    ensures ExtractURL("", body, engine) == Failure(NoCapture)
  {
  }

  /** For a key pattern extraction succeeds exactly when the member can be
      matched, yields the unescaped leftmost shortest capture, and never
      consults the engine. */
  lemma ExtractKeyPattern(key: string, body: string, engine: RegexEngine)
    requires IsWord(key)
    ensures ExtractURL(KeyPattern(key), body, engine).Success?
        <==> exists s, e :: Candidate(body, key, s, e)
    ensures ExtractURL(KeyPattern(key), body, engine).Success? ==>
      ExtractURL(KeyPattern(key), body, engine).value == Unescape(KeySubmatches(body, key)[1])
    ensures ExtractURL(KeyPattern(key), body, engine) != Failure(PatternPanic)
  {
    KeyPatternRoundTrip(key, "");
    assert KeyPattern(key) != "";
    KeySubmatchesSpec(body, key);
  }

  /** The two ways of grouping a reply around a member are the same text. */
  lemma ReplyAssoc(pre: string, o: string, value: string, post: string)
    ensures pre + o + value + "\"" + post == pre + (o + value + "\"" + post)
  {
    AppendAssoc(pre, o, value);
    AppendAssoc(pre, o + value, "\"");
    AppendAssoc(pre, o + value + "\"", post);
  }

  /** A reply holding the member `"key":"value"`, with no earlier member of
      that key and a value without double quotes or line breaks, yields the
      value with its escapes undone, whatever the other members are. */
  lemma ExtractMember(pre: string, key: string, value: string, post: string, engine: RegexEngine)
    requires IsWord(key)
    requires NoOpeningBefore(pre, Opening(key) + value + "\"" + post, key)
    requires |value| > 0
    requires forall x :: 0 <= x < |value| ==> value[x] != '"' && value[x] != '\n'
    ensures ExtractURL(KeyPattern(key), pre + Opening(key) + value + "\"" + post, engine) == Success(Unescape(value))
  {
    KeyPatternRoundTrip(key, "");
    KeySubmatchesSplice(pre, key, value, post);
  }

  lemma LinkIsWord()
    ensures IsWord("link")
  {
    var key := "link";
    assert forall i :: 0 <= i < 4 ==> IsWordChar(key[i]);
  }

  /** An imgur reply, e.g. `{"data":{"id":"abc","link":"…"}}`: the first
      `link` member is the URL, with its escapes undone. */
  lemma ExtractImgurLink(pre: string, link: string, post: string, engine: RegexEngine)
    requires NoOpeningBefore(pre, Opening("link") + link + "\"" + post, "link")
    requires |link| > 0
    requires forall x :: 0 <= x < |link| ==> link[x] != '"' && link[x] != '\n'
    ensures ExtractURL(KeyPattern("link"), pre + Opening("link") + link + "\"" + post, engine)
         == Success(Unescape(link))
  {
    LinkIsWord();
    ExtractMember(pre, "link", link, post, engine);
  }

  // ---------------------------------------------------------------- unescape

  /** `regexp.MustCompile(`\\(.)`).ReplaceAllString(s, "$1")`: scanning left
      to right, a backslash followed by a character other than a line break
      is replaced by that character; matches do not overlap. */
  function Unescape(s: string): string
  {
    if |s| == 0 then ""
    else if s[0] == '\\' && |s| >= 2 && s[1] != '\n' then [s[1]] + Unescape(s[2..])
    else [s[0]] + Unescape(s[1..])
  }

  /** Text without a backslash is kept as it is. */
  lemma UnescapeNoBackslash(s: string)
    requires forall x :: 0 <= x < |s| ==> s[x] != '\\'
    ensures Unescape(s) == s
  {
  }

  /** Unescaping never lengthens the text. */
  lemma {:induction false} UnescapeShortens(s: string)
    ensures |Unescape(s)| <= |s|
  {
    if |s| > 0 {
      if s[0] == '\\' && |s| >= 2 && s[1] != '\n' {
        UnescapeShortens(s[2..]);
      } else {
        UnescapeShortens(s[1..]);
      }
    }
  }

  /** The escaping of a JSON writer that escapes the solidus: a backslash
      before every backslash, double quote and '/'. */
  function JsonEscape(s: string): (r: string)
    ensures |r| >= |s|
  {
    if |s| == 0 then ""
    else if s[0] in "\\\"/" then ['\\', s[0]] + JsonEscape(s[1..])
    else [s[0]] + JsonEscape(s[1..])
  }

  /** Unescaping undoes such escaping for every text. */
  lemma {:induction false} UnescapeJsonEscape(s: string)
    ensures Unescape(JsonEscape(s)) == s
  {
    if |s| > 0 {
      UnescapeJsonEscape(s[1..]);
      var t := JsonEscape(s);
      if s[0] in "\\\"/" {
        assert t[2..] == JsonEscape(s[1..]);
      } else {
        assert t[1..] == JsonEscape(s[1..]);
      }
      assert s == [s[0]] + s[1..];
    }
  }

  /** Text without a backslash passes through unescaping untouched, and a
      backslash before an ordinary character is dropped. */
  lemma {:induction false} UnescapePlainPrefix(a: string, b: string)
    requires forall x :: 0 <= x < |a| ==> a[x] != '\\'
    ensures Unescape(a + b) == a + Unescape(b)
  {
    if |a| > 0 {
      var a' := a[1..];
      UnescapePlainPrefix(a', b);
      ConsAppend(a, b);
      assert Unescape(a + b) == [a[0]] + Unescape(a' + b);
      AppendAssoc([a[0]], a', Unescape(b));
      assert [a[0]] + a' == a;
    } else {
      assert a + b == b;
    }
  }

  /** The head and tail of a concatenation with a non-empty front. */
  lemma ConsAppend(a: string, b: string)
    requires |a| > 0
    ensures (a + b)[0] == a[0] && (a + b)[1..] == a[1..] + b
  {
  }

  lemma UnescapeEscapedChar(c: char, b: string)
    requires c != '\n'
    ensures Unescape(['\\', c] + b) == [c] + Unescape(b)
  {
    assert (['\\', c] + b)[2..] == b;
  }

  /** A reply that escapes its solidi, `scheme:\/\/host\/path`, unescapes
      to the plain URL, e.g. `https:\/\/short.ly\/x1` to `https://short.ly/x1`. */
  lemma UnescapeSlashes(scheme: string, host: string, path: string, escaped: string)
    requires forall x :: 0 <= x < |scheme| ==> scheme[x] != '\\'
    requires forall x :: 0 <= x < |host| ==> host[x] != '\\'
    requires forall x :: 0 <= x < |path| ==> path[x] != '\\'
    requires escaped == scheme + (['\\', '/'] + (['\\', '/'] + (host + (['\\', '/'] + path))))
    ensures Unescape(escaped) == scheme + (['/', '/'] + (host + (['/'] + path)))
  {
    var t3 := host + (['\\', '/'] + path);
    var t2 := ['\\', '/'] + t3;
    UnescapeHostPath(host, path);
    UnescapeEscapedChar('/', t3);
    UnescapeEscapedChar('/', t2);
    UnescapePlainPrefix(scheme, ['\\', '/'] + t2);
  }

  /** The escaped path separator after the host. */
  lemma UnescapeHostPath(host: string, path: string)
    requires forall x :: 0 <= x < |host| ==> host[x] != '\\'
    requires forall x :: 0 <= x < |path| ==> path[x] != '\\'
    ensures Unescape(host + (['\\', '/'] + path)) == host + (['/'] + path)
  {
    UnescapeNoBackslash(path);
    UnescapeEscapedChar('/', path);
    UnescapePlainPrefix(host, ['\\', '/'] + path);
  }

  /** Other escape sequences lose their meaning: `\n` becomes a plain 'n'
      and a backslash before a line break stays. */
  lemma UnescapeOtherEscapes()
    ensures Unescape("a\\nb") == "anb"
    ensures Unescape("a\\\n") == "a\\\n"
  {
  }
}
