/** String primitives of Go's `strings` package that the engine relies on:
    prefix tests, leftmost substring search and literal replace-all. */
module Text {
  import opened Wrappers

  predicate IsPrefix(p: string, s: string)
  {
    |p| <= |s| && s[..|p|] == p
  }

  /** `pat` occurs in `s` starting at index `i`. */
  predicate OccursAt(pat: string, s: string, i: int)
  {
    0 <= i && i + |pat| <= |s| && s[i..i + |pat|] == pat
  }

  /** Index of the leftmost occurrence of `pat` in `s` (strings.Index), if any;
      FirstOccurrenceIsLeftmost states what it finds. */
  function FirstOccurrence(s: string, pat: string): (r: Option<nat>)
    ensures r.Some? ==> r.value + |pat| <= |s|
    decreases |s|
  {
    if IsPrefix(pat, s) then Some(0)
    else if |s| == 0 then None
    else
      match FirstOccurrence(s[1..], pat)
      case None => None
      case Some(k) => Some(k + 1)
  }

  /** The search finds an occurrence, none lies to its left, and it reports
      nothing only when the pattern occurs nowhere. */
  lemma {:induction false} FirstOccurrenceIsLeftmost(s: string, pat: string)
    ensures FirstOccurrence(s, pat).Some? ==> OccursAt(pat, s, FirstOccurrence(s, pat).value)
    ensures FirstOccurrence(s, pat).Some? ==>
      forall j :: 0 <= j < FirstOccurrence(s, pat).value ==> !OccursAt(pat, s, j)
    ensures FirstOccurrence(s, pat).None? ==> forall j :: !OccursAt(pat, s, j)
    decreases |s|
  {
    if IsPrefix(pat, s) {
    } else if |s| == 0 {
    } else {
      var t := s[1..];
      FirstOccurrenceIsLeftmost(t, pat);
      forall j | 1 <= j && OccursAt(pat, s, j)
        ensures OccursAt(pat, t, j - 1)
      {
        assert t[j - 1..j - 1 + |pat|] == s[j..j + |pat|];
      }
      match FirstOccurrence(t, pat)
      case None =>
      case Some(k) =>
        assert t[k..k + |pat|] == s[k + 1..k + 1 + |pat|];
    }
  }

  /** strings.Contains */
  predicate Contains(s: string, pat: string)
  {
    FirstOccurrence(s, pat).Some?
  }

  lemma ContainsIff(s: string, pat: string)
    ensures Contains(s, pat) <==> exists i :: OccursAt(pat, s, i)
  {
    FirstOccurrenceIsLeftmost(s, pat);
    if Contains(s, pat) {
      assert OccursAt(pat, s, FirstOccurrence(s, pat).value);
    }
  }

  /** strings.ReplaceAll: every leftmost, non-overlapping occurrence of `pat`
      is replaced by `rep`; the text spliced in is never re-scanned. An empty
      `pat` matches at the start and after every character. */
  function ReplaceAll(s: string, pat: string, rep: string): string
    decreases |s|
  {
    if |pat| == 0 then
      if |s| == 0 then rep else rep + [s[0]] + ReplaceAll(s[1..], pat, rep)
    else if IsPrefix(pat, s) then rep + ReplaceAll(s[|pat|..], pat, rep)
    else if |s| == 0 then ""
    else [s[0]] + ReplaceAll(s[1..], pat, rep)
  }

  /** ReplaceAll against the independent description by leftmost search:
      without an occurrence the text is unchanged; otherwise the text up to the
      leftmost occurrence is kept verbatim, the occurrence becomes `rep`, and
      the search resumes after the occurrence. */
  lemma {:induction false} ReplaceAllLeftmost(s: string, pat: string, rep: string)
    requires |pat| > 0
    ensures FirstOccurrence(s, pat).None? ==> ReplaceAll(s, pat, rep) == s
    ensures FirstOccurrence(s, pat).Some? ==>
      var i := FirstOccurrence(s, pat).value;
      ReplaceAll(s, pat, rep) == s[..i] + rep + ReplaceAll(s[i + |pat|..], pat, rep)
    decreases |s|
  {
    if IsPrefix(pat, s) {
      assert FirstOccurrence(s, pat) == Some(0);
      assert ReplaceAll(s, pat, rep) == rep + ReplaceAll(s[|pat|..], pat, rep);
      assert s[..0] + rep == rep;
    } else if |s| > 0 {
      var t := s[1..];
      ReplaceAllLeftmost(t, pat, rep);
      ReplaceAllStep(s, pat, rep);
      match FirstOccurrence(t, pat)
      case None =>
        assert s == [s[0]] + t;
      case Some(k) =>
        var u := s[k + 1 + |pat|..];
        assert t[k + |pat|..] == u;
        PrependKept(s, pat, rep, k, ReplaceAll(u, pat, rep));
    }
  }

  lemma PrependKept(s: string, pat: string, rep: string, k: nat, tail: string)
    requires |s| > 0 && k < |s|
    requires ReplaceAll(s, pat, rep) == [s[0]] + ReplaceAll(s[1..], pat, rep)
    requires ReplaceAll(s[1..], pat, rep) == s[1..][..k] + rep + tail
    ensures ReplaceAll(s, pat, rep) == s[..k + 1] + rep + tail
  {
    var x := s[1..][..k];
    assert [s[0]] + x == s[..k + 1];
    AppendAssoc([s[0]], x + rep, tail);
    AppendAssoc([s[0]], x, rep);
  }

  /** One character that does not start an occurrence is copied through. */
  lemma ReplaceAllStep(s: string, pat: string, rep: string)
    requires |pat| > 0 && |s| > 0 && !IsPrefix(pat, s)
    ensures FirstOccurrence(s, pat) == (match FirstOccurrence(s[1..], pat)
                                        case None => None
                                        case Some(k) => Some(k + 1))
    ensures ReplaceAll(s, pat, rep) == [s[0]] + ReplaceAll(s[1..], pat, rep)
  {
  }

  /** A text without the pattern passes through ReplaceAll untouched. */
  lemma ReplaceAllAbsent(s: string, pat: string, rep: string)
    requires |pat| > 0
    requires !Contains(s, pat)
    ensures ReplaceAll(s, pat, rep) == s
  {
    ReplaceAllLeftmost(s, pat, rep);
  }

  /** A text that is exactly the pattern becomes exactly the replacement, even
      when the replacement itself contains the pattern (no recursive expansion). */
  lemma ReplaceAllWhole(pat: string, rep: string)
    requires |pat| > 0
    ensures ReplaceAll(pat, pat, rep) == rep
  {
    assert IsPrefix(pat, pat);
    assert pat[|pat|..] == "";
  }

  /** `rest` is spliced in front of the pattern-free prefix: when `a` holds no
      occurrence, `a + pat + b` is `a`, the replacement, then `b` replaced. */
  lemma ReplaceAllSplice(a: string, pat: string, rep: string, b: string)
    requires |pat| > 0
    requires FirstOccurrence(a + pat + b, pat) == Some(|a|)
    ensures ReplaceAll(a + pat + b, pat, rep) == a + rep + ReplaceAll(b, pat, rep)
  {
    var s := a + pat + b;
    ReplaceAllLeftmost(s, pat, rep);
    assert s[..|a|] == a;
    assert s[|a| + |pat|..] == b;
  }

  predicate IsWordChar(c: char)
  {
    ('a' <= c <= 'z') || ('A' <= c <= 'Z') || ('0' <= c <= '9') || c == '_'
  }

  /** A non-empty run of `[A-Za-z0-9_]`. */
  predicate IsWord(s: string)
  {
    |s| > 0 && forall i :: 0 <= i < |s| ==> IsWordChar(s[i])
  }

  predicate HasChar(s: string, c: char)
  {
    exists i :: 0 <= i < |s| && s[i] == c
  }

  /** The concatenated images of the characters of `s` under `f`. */
  function ConcatMap(f: char -> string, s: string): string
  {
    if |s| == 0 then "" else f(s[0]) + ConcatMap(f, s[1..])
  }

  /** Concatenation is associative; stated once so that proofs can regroup
      without the solver searching for it. */
  lemma AppendAssoc<T>(x: seq<T>, y: seq<T>, z: seq<T>)
    ensures x + (y + z) == (x + y) + z
  {
  }

  lemma ConcatMapCons(f: char -> string, s: string)
    requires |s| > 0
    ensures ConcatMap(f, s) == f(s[0]) + ConcatMap(f, s[1..])
  {
  }

  /** Mapping distributes over concatenation. */
  lemma {:induction false} ConcatMapAppend(f: char -> string, a: string, b: string)
    ensures ConcatMap(f, a + b) == ConcatMap(f, a) + ConcatMap(f, b)
  {
    if |a| == 0 {
      assert a + b == b;
    } else {
      var a' := a[1..];
      ConcatMapAppend(f, a', b);
      var ab := a + b;
      assert ab[1..] == a' + b;
      assert ab[0] == a[0];
      ConcatMapCons(f, ab);
      ConcatMapCons(f, a);
      AppendAssoc(f(a[0]), ConcatMap(f, a'), ConcatMap(f, b));
    }
  }
}
