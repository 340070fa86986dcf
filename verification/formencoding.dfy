/** application/x-www-form-urlencoded serialisation as done by Go's
    `url.Values.Encode`: keys in ascending byte order, each pair written as
    `QueryEscape(key)=QueryEscape(value)`, pairs joined by '&'. QueryEscape
    keeps the unreserved characters of section 2.3 of RFC 3986, turns a space
    into '+', and percent-encodes every other UTF-8 byte with upper-case hex
    digits (section 2.1 of RFC 3986). ParseForm is the inverse used to state
    the round trip. */
module FormEncoding {
  import opened Wrappers
  import opened Text

  type byte = b: int | 0 <= b < 256

  // ---------------------------------------------------------------- UTF-8

  /** The UTF-8 encoding of one Unicode scalar value. */
  function Utf8(c: char): (r: seq<byte>)
    ensures 1 <= |r| <= 4
    ensures (c as int < 0x80) == (r == [c as int])
  {
    var n := c as int;
    if n < 0x80 then [n]
    else if n < 0x800 then [0xC0 + n / 64, 0x80 + n % 64]
    else if n < 0x1_0000 then [0xE0 + n / 4096, 0x80 + (n / 64) % 64, 0x80 + n % 64]
    else [0xF0 + n / 262144, 0x80 + (n / 4096) % 64, 0x80 + (n / 64) % 64, 0x80 + n % 64]
  }

  /** The bytes of a Go string holding `s`. */
  function Utf8String(s: string): seq<byte>
  {
    if |s| == 0 then [] else Utf8(s[0]) + Utf8String(s[1..])
  }

  // ------------------------------------------------------------ escaping

  /** The characters QueryEscape leaves as they are. */
  predicate IsUnreserved(c: char)
  {
    ('a' <= c <= 'z') || ('A' <= c <= 'Z') || ('0' <= c <= '9')
    || c == '-' || c == '_' || c == '.' || c == '~'
  }

  const HexDigits: string := "0123456789ABCDEF"

  /** `%HH` for one byte, upper-case hex. */
  function PercentByte(b: byte): string
  {
    ['%', HexDigits[b / 16], HexDigits[b % 16]]
  }

  function PercentBytes(bs: seq<byte>): string
  {
    if |bs| == 0 then "" else PercentByte(bs[0]) + PercentBytes(bs[1..])
  }

  function EscapeChar(c: char): string
  {
    if IsUnreserved(c) then [c]
    else if c == ' ' then "+"
    else PercentBytes(Utf8(c))
  }

  /** url.QueryEscape: every character escaped on its own. */
  function QueryEscape(s: string): string
  {
    ConcatMap(EscapeChar, s)
  }

  predicate IsUpperHexDigit(c: char)
  {
    ('0' <= c <= '9') || ('A' <= c <= 'F')
  }

  /** Text QueryEscape can produce: unreserved characters, '+', and '%'
      only as the start of `%HH` with two upper-case hex digits. */
  predicate IsEscapedText(t: string)
  {
    && (forall i :: 0 <= i < |t| ==> IsUnreserved(t[i]) || t[i] == '%' || t[i] == '+')
    && (forall i :: 0 <= i < |t| && t[i] == '%' ==>
          i + 2 < |t| && IsUpperHexDigit(t[i + 1]) && IsUpperHexDigit(t[i + 2]))
  }

  /** PercentByte writes upper-case digits only. */
  lemma HexDigitIsUpper(n: nat)
    requires n < 16
    ensures IsUpperHexDigit(HexDigits[n])
  {
    if n < 10 {
      assert HexDigits[n] as int == '0' as int + n;
    } else {
      assert HexDigits[n] as int == 'A' as int + n - 10;
    }
  }

  /** Escaped text stays escaped when concatenated. */
  lemma EscapedTextAppend(h: string, t: string)
    requires IsEscapedText(h) && IsEscapedText(t)
    ensures IsEscapedText(h + t)
  {
    assert forall i :: 0 <= i < |h + t| ==> (h + t)[i] == (if i < |h| then h[i] else t[i - |h|]);
  }

  lemma {:induction false} PercentBytesAreEscapedText(bs: seq<byte>)
    ensures IsEscapedText(PercentBytes(bs))
  {
    if |bs| > 0 {
      PercentBytesAreEscapedText(bs[1..]);
      HexDigitIsUpper(bs[0] / 16);
      HexDigitIsUpper(bs[0] % 16);
      EscapedTextAppend(PercentByte(bs[0]), PercentBytes(bs[1..]));
    }
  }

  lemma EscapeCharIsEscapedText(c: char)
    ensures IsEscapedText(EscapeChar(c))
  {
    if !IsUnreserved(c) && c != ' ' {
      PercentBytesAreEscapedText(Utf8(c));
    }
  }

  /** The output of QueryEscape never holds the separators '&' and '=' of the
      form encoding, so the pairs can be split apart again. */
  lemma {:induction false} QueryEscapeIsEscapedText(s: string)
    ensures IsEscapedText(QueryEscape(s))
  {
    if |s| > 0 {
      QueryEscapeIsEscapedText(s[1..]);
      ConcatMapCons(EscapeChar, s);
      EscapeCharIsEscapedText(s[0]);
      EscapedTextAppend(EscapeChar(s[0]), QueryEscape(s[1..]));
    }
  }

  // ------------------------------------------------------------ unescaping

  function HexValue(c: char): Option<nat>
  {
    if '0' <= c <= '9' then Some(c as int - '0' as int)
    else if 'a' <= c <= 'f' then Some(c as int - 'a' as int + 10)
    else if 'A' <= c <= 'F' then Some(c as int - 'A' as int + 10)
    else None
  }

  function Prepend(bs: seq<byte>, rest: Option<seq<byte>>): Option<seq<byte>>
  {
    match rest
    case None => None
    case Some(r) => Some(bs + r)
  }

  /** url.QueryUnescape: "%HH" is one byte, '+' is a space, any other
      character stands for its own UTF-8 bytes; a '%' without two hex digits
      after it is an error. */
  function QueryUnescape(t: string): Option<seq<byte>>
  {
    if |t| == 0 then Some([])
    else if t[0] == '%' then
      if |t| < 3 then None
      else match (HexValue(t[1]), HexValue(t[2]))
        case (Some(h), Some(l)) => Prepend([h * 16 + l], QueryUnescape(t[3..]))
        case _ => None
    else if t[0] == '+' then Prepend([32], QueryUnescape(t[1..]))
    else Prepend(Utf8(t[0]), QueryUnescape(t[1..]))
  }

  /** Every digit PercentByte writes reads back as its value. */
  lemma HexDigitValue(n: nat)
    requires n < 16
    ensures HexValue(HexDigits[n]) == Some(n)
  {
    if n < 10 {
      assert HexDigits[n] as int == '0' as int + n;
    } else {
      assert HexDigits[n] as int == 'A' as int + n - 10;
    }
  }

  lemma PercentByteUnescapes(b: byte, rest: string)
    ensures QueryUnescape(PercentByte(b) + rest) == Prepend([b], QueryUnescape(rest))
  {
    var t := PercentByte(b) + rest;
    var h := b / 16;
    var l := b % 16;
    assert t[0] == '%' && t[1] == HexDigits[h] && t[2] == HexDigits[l];
    assert HexValue(t[1]) == Some(h) by { HexDigitValue(h); }
    assert HexValue(t[2]) == Some(l) by { HexDigitValue(l); }
    assert t[3..] == rest;
    assert h * 16 + l == b;
  }

  lemma {:induction false} PercentBytesUnescape(bs: seq<byte>, rest: string)
    ensures QueryUnescape(PercentBytes(bs) + rest) == Prepend(bs, QueryUnescape(rest))
  {
    if |bs| > 0 {
      PercentBytesUnescape(bs[1..], rest);
      AppendAssoc(PercentByte(bs[0]), PercentBytes(bs[1..]), rest);
      PercentByteUnescapes(bs[0], PercentBytes(bs[1..]) + rest);
      assert bs == [bs[0]] + bs[1..];
      match QueryUnescape(rest)
      case None =>
      case Some(r) =>
        AppendAssoc([bs[0]], bs[1..], r);
    } else {
      assert PercentBytes(bs) + rest == rest;
      match QueryUnescape(rest)
      case None =>
      case Some(r) => assert bs + r == r;
    }
  }

  lemma EscapeCharUnescapes(c: char, rest: string)
    ensures QueryUnescape(EscapeChar(c) + rest) == Prepend(Utf8(c), QueryUnescape(rest))
  {
    if IsUnreserved(c) {
      assert (EscapeChar(c) + rest)[1..] == rest;
    } else if c == ' ' {
      assert (EscapeChar(c) + rest)[1..] == rest;
    } else {
      PercentBytesUnescape(Utf8(c), rest);
    }
  }

  /** Round trip: unescaping what QueryEscape produced gives back exactly the
      UTF-8 bytes of the original text. */
  lemma {:induction false} QueryEscapeRoundTrip(s: string)
    ensures QueryUnescape(QueryEscape(s)) == Some(Utf8String(s))
  {
    if |s| > 0 {
      QueryEscapeRoundTrip(s[1..]);
      EscapeCharUnescapes(s[0], QueryEscape(s[1..]));
    }
  }

  // ------------------------------------------------------------ key order

  /** Go's string order: byte-wise on the UTF-8 bytes, which orders Unicode
      text exactly as code points do, so it is stated on characters here. */
  predicate Less(a: string, b: string)
  {
    if |a| == 0 then |b| > 0
    else |b| > 0 && (a[0] < b[0] || (a[0] == b[0] && Less(a[1..], b[1..])))
  }

  lemma {:induction false} LessIrreflexive(a: string)
    ensures !Less(a, a)
  {
    if |a| > 0 { LessIrreflexive(a[1..]); }
  }

  lemma {:induction false} LessTransitive(a: string, b: string, c: string)
    requires Less(a, b) && Less(b, c)
    ensures Less(a, c)
  {
    if |a| > 0 && a[0] == b[0] && b[0] == c[0] {
      LessTransitive(a[1..], b[1..], c[1..]);
    }
  }

  lemma {:induction false} LessTotal(a: string, b: string)
    requires a != b
    ensures Less(a, b) || Less(b, a)
  {
    if |a| > 0 && |b| > 0 && a[0] == b[0] {
      assert a == [a[0]] + a[1..] && b == [b[0]] + b[1..];
      LessTotal(a[1..], b[1..]);
    }
  }

  predicate IsLeast(m: string, ks: set<string>)
  {
    m in ks && forall k :: k in ks && k != m ==> Less(m, k)
  }

  lemma {:induction false} LeastExists(ks: set<string>)
    requires ks != {}
    ensures exists m :: IsLeast(m, ks)
    decreases |ks|
  {
    var x :| x in ks;
    var rest := ks - {x};
    if rest == {} {
      assert ks == {x};
      assert IsLeast(x, ks);
    } else {
      LeastExists(rest);
      var m :| IsLeast(m, rest);
      LessTotal(x, m);
      if Less(x, m) {
        forall k | k in ks && k != x
          ensures Less(x, k)
        {
          if k != m { LessTransitive(x, m, k); }
        }
        assert IsLeast(x, ks);
      } else {
        assert IsLeast(m, ks);
      }
    }
  }

  lemma LeastUnique(ks: set<string>)
    ensures forall a, b :: IsLeast(a, ks) && IsLeast(b, ks) ==> a == b
  {
    forall a, b | IsLeast(a, ks) && IsLeast(b, ks)
      ensures a == b
    {
      if a != b {
        LessTransitive(a, b, a);
        LessIrreflexive(a);
      }
    }
  }

  /** The keys of a url.Values in the order Encode writes them. */
  function SortedKeys(ks: set<string>): (r: seq<string>)
    ensures |r| == |ks|
    ensures forall k :: k in ks <==> k in r
    ensures forall i, j :: 0 <= i < j < |r| ==> Less(r[i], r[j])
    decreases |ks|
  {
    if ks == {} then []
    else
      LeastExists(ks);
      LeastUnique(ks);
      var m :| IsLeast(m, ks);
      var rest := SortedKeys(ks - {m});
      assert forall i :: 0 <= i < |rest| ==> rest[i] in ks - {m};
      [m] + rest
  }

  // -------------------------------------------------- joining and splitting

  function Join(ps: seq<string>, sep: char): string
  {
    if |ps| == 0 then ""
    else if |ps| == 1 then ps[0]
    else ps[0] + [sep] + Join(ps[1..], sep)
  }

  /** strings.Split on one character: the pieces between separators, always at least one. */
  function Split(t: string, sep: char): (r: seq<string>)
    ensures |r| >= 1
  {
    if |t| == 0 then [""]
    else if t[0] == sep then [""] + Split(t[1..], sep)
    else
      var rest := Split(t[1..], sep);
      [[t[0]] + rest[0]] + rest[1..]
  }

  lemma {:induction false} SplitNoSeparator(a: string, sep: char)
    requires sep !in a
    ensures Split(a, sep) == [a]
  {
    if |a| > 0 {
      SplitNoSeparator(a[1..], sep);
      assert [a[0]] + a[1..] == a;
    }
  }

  lemma {:induction false} SplitAtFirstSeparator(a: string, sep: char, t: string)
    requires sep !in a
    ensures Split(a + [sep] + t, sep) == [a] + Split(t, sep)
  {
    var s := a + [sep] + t;
    if |a| == 0 {
      assert s[0] == sep && s[1..] == t;
    } else {
      SplitAtFirstSeparator(a[1..], sep, t);
      assert s[0] == a[0] && s[1..] == a[1..] + [sep] + t;
      assert [a[0]] + a[1..] == a;
    }
  }

  /** Splitting a join gives the pieces back when none holds the separator. */
  lemma {:induction false} SplitJoin(ps: seq<string>, sep: char)
    requires |ps| > 0
    requires forall i :: 0 <= i < |ps| ==> sep !in ps[i]
    ensures Split(Join(ps, sep), sep) == ps
  {
    if |ps| == 1 {
      SplitNoSeparator(ps[0], sep);
    } else {
      SplitJoin(ps[1..], sep);
      SplitAtFirstSeparator(ps[0], sep, Join(ps[1..], sep));
      assert [ps[0]] + ps[1..] == ps;
    }
  }

  /** strings.Cut on one character. */
  function Cut(p: string, sep: char): (r: (string, string))
    ensures sep !in r.0
    ensures sep in p ==> p == r.0 + [sep] + r.1
    ensures sep !in p ==> r == (p, "")
  {
    if |p| == 0 then ("", "")
    else if p[0] == sep then ("", p[1..])
    else
      var (before, after) := Cut(p[1..], sep);
      assert p == [p[0]] + p[1..];
      AppendAssoc([p[0]], before + [sep], after);
      AppendAssoc([p[0]], before, [sep]);
      ([p[0]] + before, after)
  }

  // --------------------------------------------------------- url.Values

  /** `key=value` pieces for the keys `ks`, in that order. */
  function EncodedPairs(m: map<string, string>, ks: seq<string>): (r: seq<string>)
    requires forall i :: 0 <= i < |ks| ==> ks[i] in m
    ensures |r| == |ks|
  {
    if |ks| == 0 then []
    else [QueryEscape(ks[0]) + "=" + QueryEscape(m[ks[0]])] + EncodedPairs(m, ks[1..])
  }

  /** url.Values.Encode for values that hold one string per key. */
  function Encode(m: map<string, string>): string
  {
    Join(EncodedPairs(m, SortedKeys(m.Keys)), '&')
  }

  /** One decoded `key=value` piece; a piece without '=' has an empty value. */
  function ParsePair(p: string): Option<(seq<byte>, seq<byte>)>
  {
    var (k, v) := Cut(p, '=');
    match (QueryUnescape(k), QueryUnescape(v))
    case (Some(kb), Some(vb)) => Some((kb, vb))
    case _ => None
  }

  function ParsePairs(ps: seq<string>): Option<seq<(seq<byte>, seq<byte>)>>
  {
    if |ps| == 0 then Some([])
    else if ps[0] == "" then ParsePairs(ps[1..])
    else
      match (ParsePair(ps[0]), ParsePairs(ps[1..]))
      case (Some(kv), Some(rest)) => Some([kv] + rest)
      case _ => None
  }

  /** The decoder of the form encoding: the (key, value) byte pairs in order. */
  function ParseForm(t: string): Option<seq<(seq<byte>, seq<byte>)>>
  {
    ParsePairs(Split(t, '&'))
  }

  /** The byte pairs a form for `m` carries, keys in the order `ks`. */
  function PairBytes(m: map<string, string>, ks: seq<string>): seq<(seq<byte>, seq<byte>)>
    requires forall i :: 0 <= i < |ks| ==> ks[i] in m
  {
    if |ks| == 0 then []
    else [(Utf8String(ks[0]), Utf8String(m[ks[0]]))] + PairBytes(m, ks[1..])
  }

  /** An escaped text holds neither separator of the form encoding. */
  lemma EscapedTextHasNoSeparators(t: string)
    requires IsEscapedText(t)
    ensures '=' !in t && '&' !in t
  {
  }

  lemma EncodedPairParses(k: string, v: string)
    ensures ParsePair(QueryEscape(k) + "=" + QueryEscape(v)) == Some((Utf8String(k), Utf8String(v)))
    ensures QueryEscape(k) + "=" + QueryEscape(v) != ""
    ensures '&' !in QueryEscape(k) + "=" + QueryEscape(v)
  {
    var ek, ev := QueryEscape(k), QueryEscape(v);
    QueryEscapeIsEscapedText(k);
    QueryEscapeIsEscapedText(v);
    EscapedTextHasNoSeparators(ek);
    EscapedTextHasNoSeparators(ev);
    QueryEscapeRoundTrip(k);
    QueryEscapeRoundTrip(v);
    var p := ek + "=" + ev;
    assert p == ek + ['='] + ev;
    assert p[|ek|] == '=';
    var ab := Cut(p, '=');
    CutUnique(ek, ev, ab.0, ab.1);
  }

  lemma CutUnique(x: string, y: string, a: string, b: string)
    requires '=' !in x && '=' !in a
    requires x + ['='] + y == a + ['='] + b
    ensures a == x && b == y
  {
    var p := x + ['='] + y;
    assert p[|a|] == '=' && p[|x|] == '=';
    assert |a| == |x|;
    assert a == p[..|a|] && x == p[..|x|];
    assert b == p[|a| + 1..] && y == p[|x| + 1..];
  }

  lemma {:induction false} EncodedPairsParse(m: map<string, string>, ks: seq<string>)
    requires forall i :: 0 <= i < |ks| ==> ks[i] in m
    ensures ParsePairs(EncodedPairs(m, ks)) == Some(PairBytes(m, ks))
    ensures forall i :: 0 <= i < |ks| ==> '&' !in EncodedPairs(m, ks)[i]
  {
    if |ks| > 0 {
      EncodedPairParses(ks[0], m[ks[0]]);
      EncodedPairsParse(m, ks[1..]);
      var ps := EncodedPairs(m, ks);
      assert ps[1..] == EncodedPairs(m, ks[1..]);
    }
  }

  /** Round trip of url.Values.Encode: decoding the encoded form gives every
      key with its value, as UTF-8 bytes, in ascending key order. */
  lemma EncodeRoundTrip(m: map<string, string>)
    ensures ParseForm(Encode(m)) == Some(PairBytes(m, SortedKeys(m.Keys)))
  {
    var ks := SortedKeys(m.Keys);
    var ps := EncodedPairs(m, ks);
    EncodedPairsParse(m, ks);
    if |ps| == 0 {
      assert Encode(m) == "";
    } else {
      SplitJoin(ps, '&');
    }
  }

  /** Without arguments the encoding is empty. */
  lemma EncodeEmpty()
    ensures Encode(map[]) == ""
  {
    var e: map<string, string> := map[];
    assert SortedKeys(e.Keys) == [];
  }

  lemma QueryEscapeCons(c: char, t: string)
    ensures QueryEscape([c] + t) == EscapeChar(c) + QueryEscape(t)
  {
    assert ([c] + t)[1..] == t;
  }

  lemma Reassociate(whole: string, left: string, e: string, x: string, y: string)
    requires whole == e + (x + y) && left == e + x
    ensures whole == left + y
  {
  }

  lemma QueryEscapeConcat(a: string, b: string)
    ensures QueryEscape(a + b) == QueryEscape(a) + QueryEscape(b)
  {
    ConcatMapAppend(EscapeChar, a, b);
  }

  /** Text made only of unreserved characters is written as it is. */
  lemma {:induction false} QueryEscapeUnreserved(t: string)
    requires forall i :: 0 <= i < |t| ==> IsUnreserved(t[i])
    ensures QueryEscape(t) == t
  {
    if |t| > 0 {
      QueryEscapeUnreserved(t[1..]);
      assert [t[0]] + t[1..] == t;
    }
  }

  lemma EscapeColon()
    ensures QueryEscape(":") == "%3A"
  {
    assert Utf8(':') == [58];
    assert PercentBytes([58]) == PercentByte(58) + PercentBytes([]);
    assert QueryEscape(":") == EscapeChar(':') + QueryEscape("");
  }

  lemma EscapeSlash()
    ensures QueryEscape("/") == "%2F"
  {
    assert Utf8('/') == [47];
    assert PercentBytes([47]) == PercentByte(47) + PercentBytes([]);
    assert QueryEscape("/") == EscapeChar('/') + QueryEscape("");
  }

  /** Escaping text piece by piece: `QueryEscape(a + b)` from the escapes of `a` and `b`. */
  lemma EscapeAppend(a: string, ea: string, b: string, eb: string)
    requires QueryEscape(a) == ea && QueryEscape(b) == eb
    ensures QueryEscape(a + b) == ea + eb
  {
    QueryEscapeConcat(a, b);
  }

  /** The escape of `scheme://host/path` when the three parts are unreserved text. */
  lemma EscapeURLShape(scheme: string, host: string, path: string)
    requires forall i :: 0 <= i < |scheme| ==> IsUnreserved(scheme[i])
    requires forall i :: 0 <= i < |host| ==> IsUnreserved(host[i])
    requires forall i :: 0 <= i < |path| ==> IsUnreserved(path[i])
    ensures QueryEscape(scheme + "://" + host + "/" + path)
         == scheme + "%3A%2F%2F" + host + "%2F" + path
  {
    QueryEscapeUnreserved(scheme);
    QueryEscapeUnreserved(host);
    QueryEscapeUnreserved(path);
    EscapeSlash();
    EscapeSchemeSeparator();
    var x1 := scheme + "://";
    EscapeAppend(scheme, scheme, "://", "%3A%2F%2F");
    var x2 := x1 + host;
    EscapeAppend(x1, scheme + "%3A%2F%2F", host, host);
    var x3 := x2 + "/";
    EscapeAppend(x2, scheme + "%3A%2F%2F" + host, "/", "%2F");
    EscapeAppend(x3, scheme + "%3A%2F%2F" + host + "%2F", path, path);
  }

  lemma EscapeSchemeSeparator()
    ensures QueryEscape("://") == "%3A%2F%2F"
  {
    EscapeColon();
    EscapeSlash();
    EscapeAppend(":", "%3A", "/", "%2F");
    EscapeAppend(":/", "%3A%2F", "/", "%2F");
  }

  /** `https://a.io/x` as a query value: ':' and '/' are percent-encoded. */
  lemma EscapeURLExample(u: string)
    requires u == "https://a.io/x"
    ensures QueryEscape(u) == "https%3A%2F%2Fa.io%2Fx"
  {
    var scheme, host, path := "https", "a.io", "x";
    EscapeURLShape(scheme, host, path);
    assert scheme + "://" + host + "/" + path == u;
    assert scheme + "%3A%2F%2F" + host + "%2F" + path == "https%3A%2F%2Fa.io%2Fx";
  }

  /** A single argument is encoded as one `key=value` pair. */
  lemma EncodeSingle(k: string, v: string)
    ensures Encode(map[k := v]) == QueryEscape(k) + "=" + QueryEscape(v)
  {
    var m := map[k := v];
    assert m.Keys == {k};
    var ks := SortedKeys(m.Keys);
    assert ks == [k] by {
      assert |ks| == 1 && k in ks;
    }
    assert EncodedPairs(m, ks) == [QueryEscape(k) + "=" + QueryEscape(v)];
  }

  lemma EncodeSingleEscaped(k: string, v: string, ek: string, ev: string)
    requires QueryEscape(k) == ek && QueryEscape(v) == ev
    ensures Encode(map[k := v]) == ek + "=" + ev
  {
    EncodeSingle(k, v);
  }

}
