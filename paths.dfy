/**
 Go's `filepath.Base` on a Unix system, where the separator is '/' and there
 are no volume names. The delete handler uses it to reduce the request's path
 parameter to the single file name it then looks up and removes.
 */
module Paths {

  /** True iff every character of `s` is a separator (vacuously true for ""). */
  predicate AllSlashes(s: string) {
    forall i :: 0 <= i < |s| ==> s[i] == '/'
  }

  /** `path` with all of its trailing separators removed. */
  function TrimTrailingSlashes(path: string): (r: string)
    ensures r <= path
    ensures r == [] || r[|r| - 1] != '/'
    ensures AllSlashes(path[|r|..])
  {
    if path != [] && path[|path| - 1] == '/' then TrimTrailingSlashes(path[..|path| - 1])
    else path
  }

  /** The part of `path` after its last separator; all of `path` when it has none. */
  function AfterLastSlash(path: string): (r: string)
    ensures |r| <= |path| && r == path[|path| - |r|..]
    ensures '/' !in r
    ensures |r| < |path| ==> path[|path| - |r| - 1] == '/'
  {
    if path == [] || path[|path| - 1] == '/' then []
    else AfterLastSlash(path[..|path| - 1]) + [path[|path| - 1]]
  }

  /**
   The last element of `path`: trailing separators are dropped and what follows
   the last remaining separator is returned; "" gives "." and a path made only
   of separators gives "/".
   */
  function Base(path: string): (r: string)
    ensures r != []
  {
    if path == [] then "."
    else
      var element := AfterLastSlash(TrimTrailingSlashes(path));
      if element == [] then "/" else element
  }

  /** Base yields "/" exactly for a non-empty path made only of separators. */
  lemma BaseIsRootIffAllSlashes(path: string)
    ensures Base(path) == "/" <==> path != [] && AllSlashes(path)
  {
    if path != [] && !AllSlashes(path) {
      NonSlashSurvivesTrim(path);
    }
  }

  /** A path with a non-separator keeps a non-empty last element after trimming. */
  lemma NonSlashSurvivesTrim(path: string)
    requires !AllSlashes(path)
    ensures TrimTrailingSlashes(path) != []
    ensures AfterLastSlash(TrimTrailingSlashes(path)) != []
  {
    var trimmed := TrimTrailingSlashes(path);
    var i :| 0 <= i < |path| && path[i] != '/';
    assert path[i] == (path[..|trimmed|] + path[|trimmed|..])[i];
  }

  /**
   When `path` holds at least one non-separator character, Base returns a
   single path element: a non-empty run of non-separators that starts the path
   or follows a separator, and is followed only by separators.
   */
  lemma BaseIsLastElement(path: string)
    requires !AllSlashes(path)
    ensures var e, end := Base(path), |TrimTrailingSlashes(path)|;
      && e != [] && '/' !in e
      && |e| <= end <= |path|
      && path[end - |e|..end] == e
      && (end == |e| || path[end - |e| - 1] == '/')
      && AllSlashes(path[end..])
  {
    NonSlashSurvivesTrim(path);
    var trimmed := TrimTrailingSlashes(path);
    var end := |trimmed|;
    var element := AfterLastSlash(trimmed);
    assert Base(path) == element;
    assert trimmed == path[..end];
    assert element == trimmed[end - |element|..];
    assert path[end - |element|..end] == trimmed[end - |element|..];
    if |element| < end {
      assert path[end - |element| - 1] == trimmed[end - |element| - 1];
    }
  }

  /** Without separators, nothing is cut off before the last element. */
  lemma {:induction false} AfterLastSlashOfElement(name: string)
    requires '/' !in name
    ensures AfterLastSlash(name) == name
  {
    if name != [] {
      var init := name[..|name| - 1];
      assert name[|name| - 1] in name;
      forall k | 0 <= k < |init|
        ensures init[k] != '/'
      {
        assert init[k] == name[k] && name[k] in name;
      }
      AfterLastSlashOfElement(init);
      assert name == init + [name[|name| - 1]];
    }
  }

  /** A name without separators is its own base name. */
  lemma BaseOfElement(name: string)
    requires name != [] && '/' !in name
    ensures Base(name) == name
  {
    assert name[|name| - 1] in name;
    AfterLastSlashOfElement(name);
  }

  /** Taking the base name twice is the same as taking it once. */
  lemma BaseIdempotent(path: string)
    ensures Base(Base(path)) == Base(path)
  {
    var b := Base(path);
    if b == "." {
      BaseOfElement(b);
    } else if b == "/" {
      BaseIsRootIffAllSlashes(b);
    } else {
      BaseIsRootIffAllSlashes(path);
      assert path != [] && !AllSlashes(path);
      BaseIsLastElement(path);
      BaseOfElement(b);
    }
  }
}
