/**
 * The two predefined filters of the fs package and the way StreamFiles chains filters:
 * a path passes the chain when every filter lets it pass.
 */
module Filters {
  import opened FilePath

  /** A filter decides, from a path alone, whether that path may be streamed. */
  type Filter = string -> bool

  /** MarkdownOnly lets a path pass when its extension is exactly ".md" (case matters). */
  predicate MarkdownOnly(file: string) {
    Ext(file) == ".md"
  }

  /** NoUnderscores rejects a path whose base name starts with an underscore. */
  predicate NoUnderscores(file: string) {
    !HasPrefix(Base(file), "_")
  }

  /** A path passes the chain when no filter rejects it; the empty chain lets everything pass. */
  predicate AllPass(filters: seq<Filter>, file: string) {
    forall i :: 0 <= i < |filters| ==> filters[i](file)
  }

  /** A chain of two filters passes a path exactly when both filters do. */
  lemma AllPassPair(f: Filter, g: Filter, file: string)
    ensures AllPass([f, g], file) <==> f(file) && g(file)
  {
    var filters := [f, g];
    assert filters[0] == f && filters[1] == g;
  }

  /** MarkdownOnly holds exactly of the paths whose last three characters are ".md". */
  lemma MarkdownOnlyIffSuffix(file: string)
    ensures MarkdownOnly(file) <==> HasSuffix(file, ".md")
  {
    if HasSuffix(file, ".md") {
      var n := |file|;
      assert file[n - 3] == '.' && file[n - 2] == 'm' && file[n - 1] == 'd' by {
        assert file[n - 3..] == ".md";
      }
      var p := file[..n - 1];
      assert p[..|p| - 1] == file[..n - 2];
      assert Ext(file[..n - 2]) == ".";
      assert Ext(p) == ".m";
    }
  }

  /**
   * On a path the walk builds for a directory entry, MarkdownOnly looks only at the entry's
   * own name: a '.' in a parent directory's name does not count.
   */
  lemma MarkdownOnlyOfEntry(dir: string, name: string)
    requires IsElement(name)
    ensures MarkdownOnly(Join(dir, name)) <==> MarkdownOnly(name)
  {
    JoinElement(dir, name);
  }

  /**
   * On a path the walk builds for a directory entry, NoUnderscores rejects it exactly when the
   * entry's own name starts with '_'; an underscore in a parent directory's name does not count.
   */
  lemma NoUnderscoresOfEntry(dir: string, name: string)
    requires IsElement(name)
    ensures NoUnderscores(Join(dir, name)) <==> name[0] != '_'
  {
    JoinElement(dir, name);
    UnderscorePrefix(name);
  }

  /** NoUnderscores looks at the last element however many separators trail it. */
  lemma NoUnderscoresOfElement(d: string, name: string, t: string)
    requires EndsAtBoundary(d) && IsElement(name) && AllSeparators(t)
    ensures NoUnderscores(d + name + t) <==> name[0] != '_'
  {
    BaseOfElement(d, name, t);
    UnderscorePrefix(name);
  }

  lemma UnderscorePrefix(s: string)
    requires s != ""
    ensures HasPrefix(s, "_") <==> s[0] == '_'
  {
    assert s[..1] == [s[0]];
  }

  /** The cases MarkdownOnly is documented by: only a final element ending in ".md" passes. */
  lemma MarkdownOnlyExamples()
    ensures !MarkdownOnly("x.MD") && !MarkdownOnly("a.md/b") && !MarkdownOnly("a")
    ensures MarkdownOnly("a.md") && MarkdownOnly("d.x/a.md")
  {
    MarkdownOnlyIffSuffix("x.MD");
    MarkdownOnlyIffSuffix("a.md/b");
    MarkdownOnlyIffSuffix("a");
    MarkdownOnlyIffSuffix("a.md");
    MarkdownOnlyIffSuffix("d.x/a.md");
  }

  /** An underscore in a parent directory's name does not reject a path. */
  lemma UnderscoreInParentPasses()
    ensures NoUnderscores("_d/x.md")
  {
    assert "_d/x.md" == "_d/" + "x.md" + "";
    NoUnderscoresOfElement("_d/", "x.md", "");
  }

  /** An underscore at the start of the base name rejects a path. */
  lemma UnderscoreInBaseRejects()
    ensures !NoUnderscores("d/_x.md")
  {
    assert "d/_x.md" == "d/" + "_x.md" + "";
    NoUnderscoresOfElement("d/", "_x.md", "");
  }
}
