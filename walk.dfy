/**
 * The filesystem as filepath.Walk sees it, the sequence of callback visits a walk makes,
 * and what StreamFiles yields for it: the paths it emits and the error it returns.
 */
module Walk {
  import opened FilePath
  import opened Filters

  datatype Option<T> = None | Some(value: T)

  /** One node of the tree below the walk's root. */
  datatype Node =
    | File                        // anything that is not a directory
    | Dir(entries: seq<Entry>)    // a directory; its entries in the order the walk takes them (sorted by name when WellFormed)
    | Broken(reason: string)      // lstat of the node or reading the directory failed with this error

  datatype Entry = Entry(name: string, node: Node)

  /** What os.Stat finds at the root path. */
  datatype Lookup = Missing | Present(node: Node)

  /** What the walk callback learns about the path it is called with. */
  datatype Info = IsDir | IsFile | Failed(reason: string)

  datatype Visit = Visit(path: string, info: Info)

  /** The error a walk ends with: the failure reported for `path`. */
  datatype WalkError = WalkError(path: string, reason: string)

  /** What one call of StreamFiles produces: the paths it sends, in order, and the error it returns. */
  datatype Outcome = Outcome(emitted: seq<string>, err: Option<WalkError>)

  /**
   * `a` sorts strictly before `b` in the order sort.Strings gives directory names: byte order of
   * their UTF-8 encodings, which is the order of their code points.
   */
  predicate NameBefore(a: string, b: string) {
    if a == [] then b != []
    else b != [] && (a[0] < b[0] || (a[0] == b[0] && NameBefore(a[1..], b[1..])))
  }

  /**
   * A tree a real directory listing can produce: every entry name is one path element other
   * than `.` and `..`, and the entries of each directory are sorted strictly by name, as the
   * walk reads them.
   */
  predicate WellFormed(node: Node) {
    match node
    case Dir(es) =>
      (forall i :: 0 <= i < |es| ==> IsElement(es[i].name) && es[i].name != "." && es[i].name != ".." && WellFormed(es[i].node)) &&
      (forall i, j :: 0 <= i < j < |es| ==> NameBefore(es[i].name, es[j].name))
    case _ => true
  }

  lemma {:induction false} NameBeforeIrreflexive(a: string)
    ensures !NameBefore(a, a)
    decreases |a|
  {
    if a != [] {
      NameBeforeIrreflexive(a[1..]);
    }
  }

  /** No two entries of a well-formed directory share a name, so no two get the same path. */
  lemma WellFormedNamesDistinct(es: seq<Entry>)
    requires WellFormed(Dir(es))
    ensures forall i, j :: 0 <= i < j < |es| ==> es[i].name != es[j].name
  {
    forall i, j | 0 <= i < j < |es|
      ensures es[i].name != es[j].name
    {
      NameBeforeIrreflexive(es[i].name);
    }
  }

  function InfoOf(node: Node): Info {
    match node
    case File => IsFile
    case Dir(_) => IsDir
    case Broken(reason) => Failed(reason)
  }

  /**
   * The callback visits filepath.Walk makes below `path` when nothing stops it: `path` itself
   * first, then, for a directory, each entry's visits in listing order (depth first).
   */
  function Visits(path: string, node: Node): (vs: seq<Visit>)
    ensures |vs| >= 1 && vs[0] == Visit(path, InfoOf(node))
    ensures !node.Dir? ==> |vs| == 1
    decreases node
  {
    match node
    case Dir(es) => [Visit(path, IsDir)] + EntryVisits(path, es)
    case _ => [Visit(path, InfoOf(node))]
  }

  /** The visits of the entries `es` of the directory reached as `dir`, one entry after the other. */
  function EntryVisits(dir: string, es: seq<Entry>): seq<Visit>
    decreases es
  {
    if es == [] then []
    else
      var last := es[|es| - 1];
      EntryVisits(dir, es[..|es| - 1]) + Visits(Join(dir, last.name), last.node)
  }

  /** The position of the first failed visit, or |vs| when none failed. */
  function FailureIndex(vs: seq<Visit>): (k: nat)
    ensures k <= |vs|
    ensures forall j :: 0 <= j < k ==> !vs[j].info.Failed?
    ensures k < |vs| ==> vs[k].info.Failed?
  {
    if vs == [] || vs[0].info.Failed? then 0 else 1 + FailureIndex(vs[1..])
  }

  /** The error of the first failed visit, if any. */
  function FirstError(vs: seq<Visit>): Option<WalkError> {
    var k := FailureIndex(vs);
    if k < |vs| then Some(WalkError(vs[k].path, vs[k].info.reason)) else None
  }

  /** The callback sends a visited path when it is not a directory and every filter lets it pass. */
  predicate Emits(filters: seq<Filter>, v: Visit) {
    v.info == IsFile && AllPass(filters, v.path)
  }

  /** The paths of the visits in `vs` that the callback sends, in visit order. */
  function Selected(filters: seq<Filter>, vs: seq<Visit>): seq<string> {
    if vs == [] then []
    else (if Emits(filters, vs[0]) then [vs[0].path] else []) + Selected(filters, vs[1..])
  }

  /** The paths sent over a walk that makes the visits `vs`: the walk ends at the first failure. */
  function Emitted(filters: seq<Filter>, vs: seq<Visit>): seq<string> {
    Selected(filters, vs[..FailureIndex(vs)])
  }

  /** What StreamFiles(root, files, filters...) sends and returns when os.Stat finds `lookup` at `root`. */
  function Stream(root: string, lookup: Lookup, filters: seq<Filter>): Outcome {
    match lookup
    case Missing => Outcome([], None)
    case Present(node) =>
      var vs := Visits(root, node);
      Outcome(Emitted(filters, vs), FirstError(vs))
  }

  // ---------------------------------------------------------------------------------------------
  // How the walk composes: the visits of a listing split at any point, and a walk over two runs
  // of visits is the walk over the first, followed by the walk over the second only when the
  // first did not fail.

  lemma {:induction false} EntryVisitsAppend(dir: string, a: seq<Entry>, b: seq<Entry>)
    ensures EntryVisits(dir, a + b) == EntryVisits(dir, a) + EntryVisits(dir, b)
    decreases |b|
  {
    if b == [] {
      assert a + b == a;
    } else {
      var b', last := b[..|b| - 1], b[|b| - 1];
      var tail := Visits(Join(dir, last.name), last.node);
      calc {
        EntryVisits(dir, a + b);
        { assert (a + b)[..|a + b| - 1] == a + b';
          assert (a + b)[|a + b| - 1] == last; }
        EntryVisits(dir, a + b') + tail;
        { EntryVisitsAppend(dir, a, b'); }
        (EntryVisits(dir, a) + EntryVisits(dir, b')) + tail;
        { AppendAssociates(EntryVisits(dir, a), EntryVisits(dir, b'), tail); }
        EntryVisits(dir, a) + (EntryVisits(dir, b') + tail);
        EntryVisits(dir, a) + EntryVisits(dir, b);
      }
    }
  }

  /** The visits of a listing split around its `i`th entry. */
  lemma EntryVisitsAround(dir: string, es: seq<Entry>, i: nat)
    requires i < |es|
    ensures EntryVisits(dir, es[..i + 1]) == EntryVisits(dir, es[..i]) + Visits(Join(dir, es[i].name), es[i].node)
    ensures EntryVisits(dir, es) == EntryVisits(dir, es[..i + 1]) + EntryVisits(dir, es[i + 1..])
  {
    assert es[..i + 1][..i] == es[..i];
    assert es == es[..i + 1] + es[i + 1..];
    EntryVisitsAppend(dir, es[..i + 1], es[i + 1..]);
  }

  lemma AppendAssociates<T>(a: seq<T>, b: seq<T>, c: seq<T>)
    ensures (a + b) + c == a + (b + c)
  {
  }

  lemma {:induction false} SelectedAppend(filters: seq<Filter>, a: seq<Visit>, b: seq<Visit>)
    ensures Selected(filters, a + b) == Selected(filters, a) + Selected(filters, b)
    decreases |a|
  {
    if a == [] {
      assert a + b == b;
    } else {
      assert (a + b)[1..] == a[1..] + b;
      SelectedAppend(filters, a[1..], b);
    }
  }

  lemma FailureIndexAppend(a: seq<Visit>, b: seq<Visit>)
    ensures FailureIndex(a + b) ==
            if FailureIndex(a) < |a| then FailureIndex(a) else |a| + FailureIndex(b)
  {
    var k := FailureIndex(a + b);
    var ka := FailureIndex(a);
    if ka < |a| {
      assert (a + b)[ka] == a[ka];
    } else {
      var kb := FailureIndex(b);
      assert forall j :: |a| <= j < |a| + kb ==> (a + b)[j] == b[j - |a|];
      if kb < |b| {
        assert (a + b)[|a| + kb] == b[kb];
      }
    }
  }

  /** A walk over `a + b` in which `a` fails is the walk over `a`: nothing of `b` is visited. */
  lemma WalkAppendAfterFailure(filters: seq<Filter>, a: seq<Visit>, b: seq<Visit>)
    requires FailureIndex(a) < |a|
    ensures Emitted(filters, a + b) == Emitted(filters, a)
    ensures FirstError(a + b) == FirstError(a)
  {
    FailureIndexAppend(a, b);
    var ka := FailureIndex(a);
    assert (a + b)[..ka] == a[..ka];
    assert (a + b)[ka] == a[ka];
  }

  /** A walk over `a + b` in which `a` does not fail sends all `a` selects and goes on into `b`. */
  lemma WalkAppendWithoutFailure(filters: seq<Filter>, a: seq<Visit>, b: seq<Visit>)
    requires FailureIndex(a) == |a|
    ensures Emitted(filters, a + b) == Selected(filters, a) + Emitted(filters, b)
    ensures FirstError(a + b) == FirstError(b)
  {
    FailureIndexAppend(a, b);
    var kb := FailureIndex(b);
    assert FailureIndex(a + b) == |a| + kb;
    calc {
      Emitted(filters, a + b);
      Selected(filters, (a + b)[..|a| + kb]);
      { assert (a + b)[..|a| + kb] == a + b[..kb]; }
      Selected(filters, a + b[..kb]);
      { SelectedAppend(filters, a, b[..kb]); }
      Selected(filters, a) + Selected(filters, b[..kb]);
    }
    if kb < |b| {
      assert (a + b)[|a| + kb] == b[kb];
    }
  }

  /** A walk of one visit ends with that visit's failure, or else sends it when the callback does. */
  lemma WalkOfOneVisit(filters: seq<Filter>, v: Visit)
    ensures Emitted(filters, [v]) == if Emits(filters, v) then [v.path] else []
    ensures FirstError([v]) == if v.info.Failed? then Some(WalkError(v.path, v.info.reason)) else None
  {
    assert [v][1..] == [];
    if v.info.Failed? {
      assert [v][..FailureIndex([v])] == [];
    } else {
      assert [v][..FailureIndex([v])] == [v];
      assert Selected(filters, [v]) == (if Emits(filters, v) then [v.path] else []) + Selected(filters, []);
    }
  }

  /** The visit of a directory itself neither sends nor fails: the walk is that of its entries. */
  lemma WalkOfDirectory(filters: seq<Filter>, path: string, es: seq<Entry>)
    ensures Emitted(filters, Visits(path, Dir(es))) == Emitted(filters, EntryVisits(path, es))
    ensures FirstError(Visits(path, Dir(es))) == FirstError(EntryVisits(path, es))
  {
    var here := Visit(path, IsDir);
    assert [here][1..] == [];
    assert FailureIndex([here]) == 1;
    assert Selected(filters, [here]) == [];
    WalkAppendWithoutFailure(filters, [here], EntryVisits(path, es));
  }

  /**
   * One step of a walk through the listing `es` of `dir`: after its first `i` entries, none of which
   * failed, the walk of entry `i` either fails, and the walk of the whole listing ends there, or
   * joins the first `i` entries to make the first `i + 1`, again without failure.
   */
  lemma WalkThroughEntry(filters: seq<Filter>, dir: string, es: seq<Entry>, i: nat)
    requires i < |es|
    requires FailureIndex(EntryVisits(dir, es[..i])) == |EntryVisits(dir, es[..i])|
    ensures FirstError(Visits(Join(dir, es[i].name), es[i].node)).Some? ==>
              Selected(filters, EntryVisits(dir, es[..i])) + Emitted(filters, Visits(Join(dir, es[i].name), es[i].node))
                == Emitted(filters, EntryVisits(dir, es)) &&
              FirstError(Visits(Join(dir, es[i].name), es[i].node)) == FirstError(EntryVisits(dir, es))
    ensures FirstError(Visits(Join(dir, es[i].name), es[i].node)).None? ==>
              FailureIndex(EntryVisits(dir, es[..i + 1])) == |EntryVisits(dir, es[..i + 1])| &&
              Selected(filters, EntryVisits(dir, es[..i])) + Emitted(filters, Visits(Join(dir, es[i].name), es[i].node))
                == Selected(filters, EntryVisits(dir, es[..i + 1]))
  {
    var done := EntryVisits(dir, es[..i]);
    var child := Visits(Join(dir, es[i].name), es[i].node);
    EntryVisitsAround(dir, es, i);
    WalkAppendWithoutFailure(filters, done, child);
    FailureIndexAppend(done, child);
    if FailureIndex(child) < |child| {
      WalkAppendAfterFailure(filters, done + child, EntryVisits(dir, es[i + 1..]));
    } else {
      assert child[..FailureIndex(child)] == child;
      SelectedAppend(filters, done, child);
    }
  }

  // ---------------------------------------------------------------------------------------------
  // What a stream emits.

  /** The positions in `vs` of the visits the callback sends, in visit order. */
  function Positions(filters: seq<Filter>, vs: seq<Visit>): seq<nat> {
    if vs == [] then []
    else
      var rest := Positions(filters, vs[1..]);
      (if Emits(filters, vs[0]) then [0] else []) + seq(|rest|, j requires 0 <= j < |rest| => rest[j] + 1)
  }

  /** Each position is that of a sent visit, and Selected lists the paths at those positions. */
  lemma {:induction false} PositionsSelect(filters: seq<Filter>, vs: seq<Visit>)
    ensures var idx := Positions(filters, vs);
            |idx| == |Selected(filters, vs)| &&
            forall j :: 0 <= j < |idx| ==>
              idx[j] < |vs| && Emits(filters, vs[idx[j]]) && Selected(filters, vs)[j] == vs[idx[j]].path
    decreases |vs|
  {
    if vs != [] {
      var tail := vs[1..];
      PositionsSelect(filters, tail);
      var idx, rest := Positions(filters, vs), Positions(filters, tail);
      var sel, selRest := Selected(filters, vs), Selected(filters, tail);
      var h := if Emits(filters, vs[0]) then 1 else 0;
      assert |idx| == h + |rest| && |sel| == h + |selRest|;
      forall j | h <= j < |idx|
        ensures idx[j] < |vs| && Emits(filters, vs[idx[j]]) && sel[j] == vs[idx[j]].path
      {
        var r := rest[j - h];
        assert idx[j] == r + 1;
        assert sel[j] == selRest[j - h];
        assert tail[r] == vs[r + 1];
      }
    }
  }

  /** Positions are strictly increasing: no visit is sent twice and none out of order. */
  lemma {:induction false} PositionsIncrease(filters: seq<Filter>, vs: seq<Visit>)
    ensures forall j :: 0 < j < |Positions(filters, vs)| ==> Positions(filters, vs)[j - 1] < Positions(filters, vs)[j]
    decreases |vs|
  {
    if vs != [] {
      PositionsIncrease(filters, vs[1..]);
      var idx, rest := Positions(filters, vs), Positions(filters, vs[1..]);
      var h := if Emits(filters, vs[0]) then 1 else 0;
      forall j | 0 < j < |idx|
        ensures idx[j - 1] < idx[j]
      {
        if j > h {
          assert idx[j - 1] == rest[j - 1 - h] + 1 && idx[j] == rest[j - h] + 1;
          var j' := j - h;
          assert rest[j' - 1] < rest[j'];
        } else {
          assert idx[0] == 0 && idx[1] == rest[0] + 1;
        }
      }
    }
  }

  /** Every visit the callback sends has its position listed. */
  lemma {:induction false} PositionsComplete(filters: seq<Filter>, vs: seq<Visit>)
    ensures forall k :: 0 <= k < |vs| && Emits(filters, vs[k]) ==> k in Positions(filters, vs)
    decreases |vs|
  {
    if vs != [] {
      var tail := vs[1..];
      PositionsComplete(filters, tail);
      var idx, rest := Positions(filters, vs), Positions(filters, tail);
      var h := if Emits(filters, vs[0]) then 1 else 0;
      forall k | 0 <= k < |vs| && Emits(filters, vs[k])
        ensures k in idx
      {
        if k == 0 {
          assert idx[0] == 0;
        } else {
          assert tail[k - 1] == vs[k];
          var j :| 0 <= j < |rest| && rest[j] == k - 1;
          assert idx[h + j] == k;
        }
      }
    }
  }

  /**
   * What StreamFiles emits for a root that exists: exactly the visits before the first failure
   * that are not directories and pass every filter, with their paths, in visit order, each once.
   * Directories are never emitted; with no filters every file visited before the failure is.
   */
  lemma StreamIsOrderedSelection(root: string, node: Node, filters: seq<Filter>) returns (idx: seq<nat>)
    ensures var vs := Visits(root, node);
            var out := Stream(root, Present(node), filters);
            && |idx| == |out.emitted|
            && (forall j :: 0 <= j < |idx| ==>
                  idx[j] < FailureIndex(vs) && vs[idx[j]].info == IsFile &&
                  AllPass(filters, vs[idx[j]].path) && out.emitted[j] == vs[idx[j]].path)
            && (forall j :: 0 < j < |idx| ==> idx[j - 1] < idx[j])
            && (forall k :: 0 <= k < FailureIndex(vs) && vs[k].info == IsFile && AllPass(filters, vs[k].path) ==>
                  k in idx)
  {
    var vs := Visits(root, node);
    var walked := vs[..FailureIndex(vs)];
    idx := Positions(filters, walked);
    PositionsSelect(filters, walked);
    PositionsIncrease(filters, walked);
    PositionsComplete(filters, walked);
    assert forall k :: 0 <= k < |walked| ==> walked[k] == vs[k];
  }

  /** With no filters, every file visited before the first failure is emitted. */
  lemma NoFiltersEmitEveryFile(root: string, node: Node)
    ensures var vs := Visits(root, node);
            forall k :: 0 <= k < FailureIndex(vs) && vs[k].info == IsFile ==>
              vs[k].path in Stream(root, Present(node), []).emitted
  {
    var vs := Visits(root, node);
    var idx := StreamIsOrderedSelection(root, node, []);
    forall k | 0 <= k < FailureIndex(vs) && vs[k].info == IsFile
      ensures vs[k].path in Stream(root, Present(node), []).emitted
    {
      assert AllPass([], vs[k].path);
      var j :| 0 <= j < |idx| && idx[j] == k;
      assert Stream(root, Present(node), []).emitted[j] == vs[k].path;
    }
  }

  /**
   * A run of visits ends without error exactly when none of its visits fails, and then sends all
   * it selects; otherwise the error is the first failure's and only the visits before it count.
   */
  lemma FirstFailureDecides(filters: seq<Filter>, vs: seq<Visit>)
    ensures FirstError(vs).None? <==> forall k :: 0 <= k < |vs| ==> !vs[k].info.Failed?
    ensures FirstError(vs).None? ==> Emitted(filters, vs) == Selected(filters, vs)
    ensures forall k :: 0 <= k < |vs| && vs[k].info.Failed? && (forall j :: 0 <= j < k ==> !vs[j].info.Failed?) ==>
              FirstError(vs) == Some(WalkError(vs[k].path, vs[k].info.reason)) &&
              Emitted(filters, vs) == Selected(filters, vs[..k])
  {
    var n := FailureIndex(vs);
    if n == |vs| {
      assert vs[..|vs|] == vs;
    } else {
      assert vs[n].info.Failed?;
    }
    forall k | 0 <= k < |vs| && vs[k].info.Failed? && (forall j :: 0 <= j < k ==> !vs[j].info.Failed?)
      ensures n == k
    {
    }
  }

  /**
   * FirstFailureDecides for the visits of a whole walk, stated of Stream: a stream over an existing
   * root returns an error exactly when some visit fails; the error is the first failure's, and
   * what was emitted is what the visits before that failure select.
   */
  lemma StreamErrorIsFirstFailure(root: string, node: Node, filters: seq<Filter>)
    ensures Stream(root, Present(node), filters) ==
            Outcome(Emitted(filters, Visits(root, node)), FirstError(Visits(root, node)))
    ensures FirstError(Visits(root, node)).None? <==>
            forall k :: 0 <= k < |Visits(root, node)| ==> !Visits(root, node)[k].info.Failed?
    ensures FirstError(Visits(root, node)).None? ==>
            Emitted(filters, Visits(root, node)) == Selected(filters, Visits(root, node))
    ensures forall k :: 0 <= k < |Visits(root, node)| && Visits(root, node)[k].info.Failed? &&
                        (forall j :: 0 <= j < k ==> !Visits(root, node)[j].info.Failed?) ==>
              FirstError(Visits(root, node)) == Some(WalkError(Visits(root, node)[k].path, Visits(root, node)[k].info.reason)) &&
              Emitted(filters, Visits(root, node)) == Selected(filters, Visits(root, node)[..k])
  {
    FirstFailureDecides(filters, Visits(root, node));
  }

  // ---------------------------------------------------------------------------------------------
  // An independent description of a walk over a tree that holds no failure.

  /** No node of the tree fails. */
  predicate Intact(node: Node) {
    match node
    case File => true
    case Broken(_) => false
    case Dir(es) => forall i :: 0 <= i < |es| ==> Intact(es[i].node)
  }

  /** The paths of the files below `path` that pass every filter: depth first, entries in listing order. */
  function Matching(filters: seq<Filter>, path: string, node: Node): seq<string>
    decreases node
  {
    match node
    case File => if AllPass(filters, path) then [path] else []
    case Broken(_) => []
    case Dir(es) => MatchingEntries(filters, path, es)
  }

  function MatchingEntries(filters: seq<Filter>, dir: string, es: seq<Entry>): seq<string>
    decreases es
  {
    if es == [] then []
    else
      var last := es[|es| - 1];
      MatchingEntries(filters, dir, es[..|es| - 1]) + Matching(filters, Join(dir, last.name), last.node)
  }

  lemma {:induction false} VisitsOfIntact(filters: seq<Filter>, path: string, node: Node)
    requires Intact(node)
    ensures var vs := Visits(path, node);
            FailureIndex(vs) == |vs| && Selected(filters, vs) == Matching(filters, path, node)
    decreases node, 1
  {
    var vs := Visits(path, node);
    match node
    case File =>
    case Dir(es) =>
      EntryVisitsOfIntact(filters, path, es);
      var rest := EntryVisits(path, es);
      assert vs == [Visit(path, IsDir)] + rest;
      FailureIndexAppend([Visit(path, IsDir)], rest);
      SelectedAppend(filters, [Visit(path, IsDir)], rest);
  }

  lemma {:induction false} EntryVisitsOfIntact(filters: seq<Filter>, dir: string, es: seq<Entry>)
    requires forall i :: 0 <= i < |es| ==> Intact(es[i].node)
    ensures var vs := EntryVisits(dir, es);
            FailureIndex(vs) == |vs| && Selected(filters, vs) == MatchingEntries(filters, dir, es)
    decreases es, 0
  {
    if es != [] {
      var init := es[..|es| - 1];
      var last := es[|es| - 1];
      EntryVisitsOfIntact(filters, dir, init);
      VisitsOfIntact(filters, Join(dir, last.name), last.node);
      var a := EntryVisits(dir, init);
      var b := Visits(Join(dir, last.name), last.node);
      FailureIndexAppend(a, b);
      SelectedAppend(filters, a, b);
    }
  }

  /**
   * Over a tree in which nothing fails, StreamFiles emits every file that passes all filters,
   * depth first and in listing order, and returns no error.
   */
  lemma StreamOfIntactTree(root: string, node: Node, filters: seq<Filter>)
    requires Intact(node)
    ensures Stream(root, Present(node), filters) == Outcome(Matching(filters, root, node), None)
  {
    VisitsOfIntact(filters, root, node);
    var vs := Visits(root, node);
    assert vs[..|vs|] == vs;
  }

  // ---------------------------------------------------------------------------------------------
  // Scenarios.

  /** A root that does not exist yields nothing and no error, whatever the filters. */
  lemma MissingRootStreamsNothing(root: string, filters: seq<Filter>)
    ensures Stream(root, Missing, filters).emitted == [] && Stream(root, Missing, filters).err == None
  {
  }

  /** Three plain files of one directory, of which the filters pass only the middle one. */
  lemma MatchingOfMiddleFile(filters: seq<Filter>, dir: string, x: string, y: string, z: string)
    requires !AllPass(filters, Join(dir, x)) && AllPass(filters, Join(dir, y)) && !AllPass(filters, Join(dir, z))
    ensures MatchingEntries(filters, dir, [Entry(x, File), Entry(y, File), Entry(z, File)]) == [Join(dir, y)]
  {
    var es := [Entry(x, File), Entry(y, File), Entry(z, File)];
    assert es[..1][..0] == [];
    assert MatchingEntries(filters, dir, es[..1]) == [];
    assert es[..2][..1] == es[..1];
    assert MatchingEntries(filters, dir, es[..2]) == [Join(dir, y)];
    assert es[..2] == es[..|es| - 1];
  }

  lemma UnderscoreEntryRejected(root: string)
    ensures !AllPass([MarkdownOnly, NoUnderscores], Join(root, "_c.md"))
  {
    AllPassPair(MarkdownOnly, NoUnderscores, Join(root, "_c.md"));
    NoUnderscoresOfEntry(root, "_c.md");
  }

  lemma MarkdownEntryPasses(root: string)
    ensures AllPass([MarkdownOnly, NoUnderscores], Join(root, "a.md"))
  {
    AllPassPair(MarkdownOnly, NoUnderscores, Join(root, "a.md"));
    NoUnderscoresOfEntry(root, "a.md");
    MarkdownOnlyOfEntry(root, "a.md");
    MarkdownOnlyIffSuffix("a.md");
  }

  lemma TextEntryRejected(root: string)
    ensures !AllPass([MarkdownOnly, NoUnderscores], Join(root, "b.txt"))
  {
    AllPassPair(MarkdownOnly, NoUnderscores, Join(root, "b.txt"));
    MarkdownOnlyOfEntry(root, "b.txt");
    MarkdownOnlyIffSuffix("b.txt");
  }

  /** Of `_c.md`, `a.md` and `b.txt`, MarkdownOnly and NoUnderscores together let only `a.md` pass. */
  lemma MarkdownWithoutUnderscores(root: string)
    ensures Stream(root, Present(Dir([Entry("_c.md", File), Entry("a.md", File), Entry("b.txt", File)])),
                   [MarkdownOnly, NoUnderscores])
            == Outcome([Join(root, "a.md")], None)
  {
    var filters: seq<Filter> := [MarkdownOnly, NoUnderscores];
    var es := [Entry("_c.md", File), Entry("a.md", File), Entry("b.txt", File)];
    StreamOfIntactTree(root, Dir(es), filters);
    UnderscoreEntryRejected(root);
    MarkdownEntryPasses(root);
    TextEntryRejected(root);
    MatchingOfMiddleFile(filters, root, "_c.md", "a.md", "b.txt");
  }

  lemma VisitsOfThreeEntries(root: string, x: string, b: string, reason: string, z: string)
    ensures Visits(root, Dir([Entry(x, File), Entry(b, Broken(reason)), Entry(z, File)]))
            == [Visit(root, IsDir), Visit(Join(root, x), IsFile), Visit(Join(root, b), Failed(reason)),
                Visit(Join(root, z), IsFile)]
  {
    var es := [Entry(x, File), Entry(b, Broken(reason)), Entry(z, File)];
    var vx, vb, vz := Visit(Join(root, x), IsFile), Visit(Join(root, b), Failed(reason)), Visit(Join(root, z), IsFile);
    assert es[..1][..0] == [];
    assert EntryVisits(root, es[..1]) == [vx];
    assert es[..2][..1] == es[..1];
    assert EntryVisits(root, es[..2]) == [vx, vb];
    assert es[..2] == es[..|es| - 1];
    assert EntryVisits(root, es) == [vx, vb, vz];
  }

  /** Over a directory, a sent file and a failure, the walk sends that file and ends with the failure. */
  lemma WalkOfFileThenFailure(filters: seq<Filter>, vd: Visit, vx: Visit, vb: Visit, vz: Visit)
    requires vd.info == IsDir && Emits(filters, vx) && vb.info.Failed?
    ensures Emitted(filters, [vd, vx, vb, vz]) == [vx.path]
    ensures FirstError([vd, vx, vb, vz]) == Some(WalkError(vb.path, vb.info.reason))
  {
    var vs := [vd, vx, vb, vz];
    assert vs[1..][1..] == vs[2..];
    assert FailureIndex(vs[2..]) == 0;
    assert FailureIndex(vs) == 2;
    assert vs[..2][1..][1..] == [];
    assert Selected(filters, vs[..2][1..]) == [vx.path];
  }

  /**
   * An entry whose directory cannot be read ends the walk: the file listed before it is sent,
   * the file listed after it is never visited, and the stream returns the entry's error.
   */
  lemma BrokenEntryStopsStream(filters: seq<Filter>, root: string, x: string, b: string, reason: string, z: string)
    requires AllPass(filters, Join(root, x))
    ensures Stream(root, Present(Dir([Entry(x, File), Entry(b, Broken(reason)), Entry(z, File)])), filters)
            == Outcome([Join(root, x)], Some(WalkError(Join(root, b), reason)))
  {
    VisitsOfThreeEntries(root, x, b, reason, z);
    WalkOfFileThenFailure(filters, Visit(root, IsDir), Visit(Join(root, x), IsFile),
                          Visit(Join(root, b), Failed(reason)), Visit(Join(root, z), IsFile));
  }

  /** A Markdown file sits before an unreadable directory: it is the only path sent. */
  lemma UnreadableDirectoryEndsStream(root: string)
    ensures Stream(root, Present(Dir([Entry("a.md", File), Entry("private", Broken("permission denied")),
                                      Entry("z.md", File)])), [MarkdownOnly])
            == Outcome([Join(root, "a.md")], Some(WalkError(Join(root, "private"), "permission denied")))
  {
    var filters: seq<Filter> := [MarkdownOnly];
    assert AllPass(filters, Join(root, "a.md")) by {
      MarkdownOnlyOfEntry(root, "a.md");
      MarkdownOnlyIffSuffix("a.md");
      assert filters[0] == MarkdownOnly;
    }
    BrokenEntryStopsStream(filters, root, "a.md", "private", "permission denied", "z.md");
  }

  /** The listing of MarkdownWithoutUnderscores is one a real, sorted directory read can return. */
  lemma MarkdownListingIsWellFormed()
    ensures WellFormed(Dir([Entry("_c.md", File), Entry("a.md", File), Entry("b.txt", File)]))
  {
    assert NameBefore("_c.md", "a.md") && NameBefore("a.md", "b.txt");
    assert NameBefore("_c.md", "b.txt");
  }

  /** The listing of UnreadableDirectoryEndsStream is one a real, sorted directory read can return. */
  lemma UnreadableListingIsWellFormed()
    ensures WellFormed(Dir([Entry("a.md", File), Entry("private", Broken("permission denied")), Entry("z.md", File)]))
  {
    assert NameBefore("a.md", "private") && NameBefore("private", "z.md");
    assert NameBefore("a.md", "z.md");
  }
}
