/** The two `path/filepath` helpers the engine uses on Unix paths: Base (the
    filename announced in a multipart upload) and Ext (the extension that picks
    the image or the file uploader). '/' is the only separator. */
module Paths {
  import opened Text

  /** `path` without its trailing run of separators. */
  function TrimTrailingSlashes(path: string): (r: string)
    ensures IsPrefix(r, path)
    ensures r == "" || r[|r| - 1] != '/'
    ensures forall i :: |r| <= i < |path| ==> path[i] == '/'
  {
    if |path| > 0 && path[|path| - 1] == '/' then TrimTrailingSlashes(path[..|path| - 1])
    else path
  }

  /** The suffix of `path` that follows its last separator (all of it when there is none). */
  function AfterLastSlash(path: string): (r: string)
    ensures |r| <= |path| && r == path[|path| - |r|..]
    ensures !HasChar(r, '/')
    ensures |r| < |path| ==> path[|path| - |r| - 1] == '/'
  {
    if |path| == 0 then ""
    else if path[|path| - 1] == '/' then ""
    else AfterLastSlash(path[..|path| - 1]) + [path[|path| - 1]]
  }

  /** filepath.Base: the last element of `path`; "." for the empty path and
      "/" for a path made only of separators. */
  function Base(path: string): (r: string)
    ensures r != ""
    ensures path == "" ==> r == "."
    ensures path != "" && TrimTrailingSlashes(path) == "" ==> r == "/"
    ensures TrimTrailingSlashes(path) != "" ==>
      var q := TrimTrailingSlashes(path);
      && !HasChar(r, '/')
      && |r| <= |q| && q[|q| - |r|..] == r
      && (|r| == |q| || q[|q| - |r| - 1] == '/')
  {
    if path == "" then "."
    else
      var q := TrimTrailingSlashes(path);
      if q == "" then "/"
      else
        AfterLastSlash(q)
  }

  /** filepath.Ext: the suffix of the last element that starts at its last
      '.'; empty when the last element has no '.' (see ExtIsDotSuffix). */
  function Ext(path: string): string
  {
    if |path| == 0 then ""
    else
      var c := path[|path| - 1];
      if c == '/' then ""
      else if c == '.' then "."
      else
        var e := Ext(path[..|path| - 1]);
        if e == "" then "" else e + [c]
  }

  /** Appending a character other than '.' and '/' extends a found
      extension and leaves a missing one missing. */
  lemma ExtAppend(p: string, c: char)
    requires c != '/' && c != '.'
    ensures Ext(p + [c]) == if Ext(p) == "" then "" else Ext(p) + [c]
  {
    assert (p + [c])[..|p|] == p;
  }

  /** Ext returns a suffix of the path that starts with '.' and holds no other
      '.' and no '/'. */
  lemma {:induction false} ExtIsDotSuffix(path: string)
    ensures |Ext(path)| <= |path| && Ext(path) == path[|path| - |Ext(path)|..]
    ensures Ext(path) != "" ==> Ext(path)[0] == '.'
    ensures forall i :: 1 <= i < |Ext(path)| ==> Ext(path)[i] != '.' && Ext(path)[i] != '/'
  {
    if |path| > 0 {
      var c := path[|path| - 1];
      var p' := path[..|path| - 1];
      assert path == p' + [c];
      if c != '/' && c != '.' {
        ExtIsDotSuffix(p');
        ExtAppend(p', c);
      }
    }
  }

  /** Ext finds nothing exactly when the last element of the path has no '.'. */
  lemma {:induction false} ExtEmptyIff(path: string)
    ensures Ext(path) == "" <==>
      forall i :: |path| - |AfterLastSlash(path)| <= i < |path| ==> path[i] != '.'
  {
    if |path| > 0 {
      var c := path[|path| - 1];
      var p' := path[..|path| - 1];
      assert path == p' + [c];
      if c != '/' && c != '.' {
        ExtEmptyIff(p');
        ExtAppend(p', c);
        assert AfterLastSlash(path) == AfterLastSlash(p') + [c];
      }
    }
  }

  /** Neither a '.' nor a '/' occurs in `s`. */
  predicate Plain(s: string)
  {
    forall i :: 0 <= i < |s| ==> s[i] != '.' && s[i] != '/'
  }

  /** The suffix after the last separator of `prefix + name`, when `name`
      holds none, is `name` itself, or all of it when `prefix` is empty. */
  lemma {:induction false} AfterLastSlashOf(prefix: string, name: string)
    requires forall i :: 0 <= i < |name| ==> name[i] != '/'
    requires prefix == "" || prefix[|prefix| - 1] == '/'
    ensures AfterLastSlash(prefix + name) == name
    decreases |name|
  {
    if |name| == 0 {
      assert prefix + name == prefix;
    } else {
      var n' := name[..|name| - 1];
      var c := name[|name| - 1];
      AfterLastSlashOf(prefix, n');
      assert name == n' + [c];
      AppendAssoc(prefix, n', [c]);
      AfterLastSlashSnoc(prefix + n', c);
    }
  }

  /** A character other than the separator extends the last element. */
  lemma AfterLastSlashSnoc(q: string, c: char)
    requires c != '/'
    ensures AfterLastSlash(q + [c]) == AfterLastSlash(q) + [c]
  {
    assert (q + [c])[..|q|] == q;
  }

  /** The last element of a path is what follows its last separator, e.g.
      `shot.png` for `/tmp/caplet/shot.png`. */
  lemma BaseLastElement(dir: string, name: string)
    requires |name| > 0 && !HasChar(name, '/')
    ensures Base(dir + "/" + name) == name
  {
    var p := dir + "/" + name;
    assert p[|p| - 1] == name[|name| - 1];
    assert TrimTrailingSlashes(p) == p;
    AfterLastSlashOf(dir + "/", name);
  }

  /** Trailing separators are ignored, e.g. `notes` for `notes/`. */
  lemma BaseTrailingSlash(name: string)
    requires |name| > 0 && !HasChar(name, '/')
    ensures Base(name + "/") == name
  {
    var p := name + "/";
    assert p[..|p| - 1] == name;
    assert TrimTrailingSlashes(name) == name;
    AfterLastSlashOf("", name);
    assert "" + name == name;
  }

  /** The extension is the suffix from the last '.', e.g. `.gz` for
      `archive.tar.gz` and `.png` for `shot.png`. */
  lemma {:induction false} ExtLastDot(stem: string, ext: string)
    requires Plain(ext)
    ensures Ext(stem + "." + ext) == "." + ext
    decreases |ext|
  {
    if |ext| == 0 {
      assert stem + "." + ext == stem + ".";
    } else {
      var e' := ext[..|ext| - 1];
      var c := ext[|ext| - 1];
      ExtLastDot(stem, e');
      ExtAppend(stem + "." + e', c);
      assert stem + "." + e' + [c] == stem + "." + ext;
      assert "." + e' + [c] == "." + ext;
    }
  }

  /** A '.' in a directory name is not an extension, e.g. for `dir.d/README`. */
  lemma {:induction false} ExtAfterSlash(dir: string, name: string)
    requires Plain(name)
    ensures Ext(dir + "/" + name) == ""
    decreases |name|
  {
    if |name| == 0 {
      assert dir + "/" + name == dir + "/";
    } else {
      var n' := name[..|name| - 1];
      var c := name[|name| - 1];
      ExtAfterSlash(dir, n');
      ExtAppend(dir + "/" + n', c);
      assert dir + "/" + n' + [c] == dir + "/" + name;
    }
  }
}
