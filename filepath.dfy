/**
 * The three functions of Go's path/filepath package that the fs package relies on
 * (Ext, Base and the Join the tree walk uses to name a directory's entries),
 * for a Unix host: the only separator is '/', and there are no volume names.
 */
module FilePath {

  const Separator: char := '/'

  /** Every character of `s` is a separator (true of the empty string). */
  predicate AllSeparators(s: string) {
    forall k :: 0 <= k < |s| ==> s[k] == Separator
  }

  /** `s` is one non-empty path element: it holds no separator. */
  predicate IsElement(s: string) {
    s != "" && Separator !in s
  }

  predicate HasPrefix(s: string, prefix: string) {
    |prefix| <= |s| && s[..|prefix|] == prefix
  }

  predicate HasSuffix(s: string, suffix: string) {
    |suffix| <= |s| && s[|s| - |suffix|..] == suffix
  }

  /** `s` is empty or ends in a separator, so that an element appended to it starts a new element. */
  predicate EndsAtBoundary(s: string) {
    s == "" || s[|s| - 1] == Separator
  }

  /**
   * `path` ends with the element `name`, possibly followed by separators:
   * `path` is `d + name + t` where `d` is empty or ends in a separator and `t` holds only separators.
   */
  ghost predicate EndsWithElement(path: string, name: string) {
    exists k {:trigger path[k..]} ::
      |name| <= k <= |path| && path[k - |name|..k] == name && AllSeparators(path[k..]) &&
      EndsAtBoundary(path[..k - |name|])
  }

  /**
   * filepath.Ext: the suffix of `path` that starts at the last '.' of its final element,
   * or "" when the final element holds no '.'.
   */
  function Ext(path: string): (r: string)
    ensures HasSuffix(path, r)
    ensures r != "" ==> r[0] == '.' && '.' !in r[1..] && Separator !in r
  {
    if path == "" || path[|path| - 1] == Separator then ""
    else if path[|path| - 1] == '.' then "."
    else
      var e := Ext(path[..|path| - 1]);
      if e == "" then "" else e + [path[|path| - 1]]
  }

  /** The extension is empty exactly when every '.' of the path lies in an element before the last. */
  lemma {:induction false} ExtEmptyIffNoDotInLastElement(path: string)
    ensures Ext(path) == "" <==> forall k :: 0 <= k < |path| && path[k] == '.' ==> Separator in path[k + 1..]
    decreases |path|
  {
    var r := Ext(path);
    if r != "" {
      var k := |path| - |r|;
      assert path[k] == r[0] == '.';
      assert path[k + 1..] == r[1..];
    } else if path != "" && path[|path| - 1] != Separator {
      var m := |path| - 1;
      var init := path[..m];
      assert path[m] != '.';
      assert Ext(init) == "";
      ExtEmptyIffNoDotInLastElement(init);
      forall k | 0 <= k < |path| && path[k] == '.'
        ensures Separator in path[k + 1..]
      {
        assert init[k] == '.';
        var j :| 0 <= j < |init[k + 1..]| && init[k + 1..][j] == Separator;
        assert path[k + 1..][j] == Separator;
      }
    } else if path != "" {
      forall k | 0 <= k < |path| && path[k] == '.'
        ensures Separator in path[k + 1..]
      {
        assert path[k + 1..][|path| - k - 2] == Separator;
      }
    }
  }

  /** The longest prefix of `path` that does not end in a separator. */
  function TrimTrailingSeparators(path: string): (r: string)
    ensures HasPrefix(path, r)
    ensures AllSeparators(path[|r|..])
    ensures r == "" || r[|r| - 1] != Separator
  {
    if path != "" && path[|path| - 1] == Separator then TrimTrailingSeparators(path[..|path| - 1])
    else path
  }

  /** The longest suffix of `path` that holds no separator. */
  function LastElement(path: string): (r: string)
    ensures HasSuffix(path, r)
    ensures Separator !in r
    ensures EndsAtBoundary(path[..|path| - |r|])
  {
    if path == "" || path[|path| - 1] == Separator then ""
    else LastElement(path[..|path| - 1]) + [path[|path| - 1]]
  }

  /**
   * filepath.Base: the last element of `path` once trailing separators are dropped;
   * "." for the empty path and "/" for a path made only of separators.
   */
  function Base(path: string): (r: string)
    ensures path == "" ==> r == "."
    ensures path != "" && AllSeparators(path) ==> r == [Separator]
    ensures !AllSeparators(path) ==> IsElement(r) && EndsWithElement(path, r)
  {
    if path == "" then "."
    else
      var trimmed := TrimTrailingSeparators(path);
      if trimmed == "" then [Separator]
      else
        var name := LastElement(trimmed);
        assert trimmed[|trimmed| - 1] in name;
        assert path[..|trimmed|] == trimmed;
        assert path[|trimmed| - |name|..|trimmed|] == name;
        assert path[..|trimmed| - |name|] == trimmed[..|trimmed| - |name|];
        name
  }

  /**
   * The path filepath.Walk gives the entry `name` of the directory it reached as `dir`.
   * For a clean `dir` and a `name` that is one path element other than `.` and `..` (an entry
   * name as Walk.WellFormed describes it), this is what filepath.Join(dir, name) returns.
   */
  function Join(dir: string, name: string): string {
    if dir == "" || dir == "." then name
    else if dir[|dir| - 1] == Separator then dir + name
    else dir + [Separator] + name
  }

  /** The converse of Base's contract: any `d + name + t` of the shape EndsWithElement describes has base `name`. */
  lemma BaseOfElement(d: string, name: string, t: string)
    requires EndsAtBoundary(d) && IsElement(name) && AllSeparators(t)
    ensures Base(d + name + t) == name
  {
    var path := d + name + t;
    var trimmed := TrimTrailingSeparators(path);
    assert path[|d + name| - 1] == name[|name| - 1] != Separator;
    assert trimmed == d + name;
    LastElementOfElement(d, name);
  }

  /**
   * The last element of `d + name` is `name`: a shorter result would start after a separator
   * inside `name`, and a longer one would hold the separator that ends `d`.
   */
  lemma LastElementOfElement(d: string, name: string)
    requires EndsAtBoundary(d) && Separator !in name
    ensures LastElement(d + name) == name
  {
    var p := d + name;
    var r := LastElement(p);
    assert |r| == |name|;
    assert r == p[|d|..] == name;
  }

  /** A prefix that ends at an element boundary does not change the extension. */
  lemma {:induction false} ExtOfElement(d: string, name: string)
    requires EndsAtBoundary(d) && IsElement(name)
    ensures Ext(d + name) == Ext(name)
    decreases |name|
  {
    var path, n := d + name, |name| - 1;
    var m := |path| - 1;
    assert path[m] == name[n];
    if name[n] != '.' && n > 0 {
      assert path[..m] == d + name[..n];
      ExtOfElement(d, name[..n]);
      ExtOfLongerElement(path);
      ExtOfLongerElement(name);
    } else if name[n] != '.' {
      assert path[..m] == d && Ext(d) == "";
      assert name[..n] == "";
    }
  }

  /** How Ext extends over a last character that is neither a separator nor a '.'. */
  lemma ExtOfLongerElement(path: string)
    requires path != "" && path[|path| - 1] != Separator && path[|path| - 1] != '.'
    ensures Ext(path) == if Ext(path[..|path| - 1]) == "" then "" else Ext(path[..|path| - 1]) + [path[|path| - 1]]
  {
  }

  /** The entry's path ends with its name, which starts a new element, and begins with the directory's path. */
  lemma JoinShape(dir: string, name: string)
    ensures var r := Join(dir, name);
            HasSuffix(r, name) && EndsAtBoundary(r[..|r| - |name|]) && HasPrefix(r, if dir == "." then "" else dir)
  {
  }

  /** Join names its entry so that the entry's name is the base and fixes the extension. */
  lemma JoinElement(dir: string, name: string)
    requires IsElement(name)
    ensures Base(Join(dir, name)) == name
    ensures Ext(Join(dir, name)) == Ext(name)
  {
    var r := Join(dir, name);
    JoinShape(dir, name);
    var d := r[..|r| - |name|];
    assert r == d + name + "";
    BaseOfElement(d, name, "");
    ExtOfElement(d, name);
  }
}
