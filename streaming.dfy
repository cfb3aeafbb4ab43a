/**
 * StreamFiles as the fs package runs it: a walk over the tree below a path whose callback sends
 * every non-directory path that passes all filters through a channel, which is closed once the
 * walk is over. Each method is proved against the reference semantics of the Walk module.
 */
module Streaming {
  import opened FilePath
  import opened Filters
  import opened Walk

  /**
   * The send side of the `files` channel: what has been sent so far, in order, and whether it
   * has been closed. Sending on or closing a closed channel makes Go panic, so neither is allowed.
   */
  class Channel {
    var sent: seq<string>
    var closed: bool

    constructor ()
      ensures sent == [] && !closed
    {
      sent := [];
      closed := false;
    }

    method Send(file: string)
      requires !closed
      modifies this
      ensures sent == old(sent) + [file] && !closed
    {
      sent := sent + [file];
    }

    method Close()
      requires !closed
      modifies this
      ensures closed && sent == old(sent)
    {
      closed := true;
    }
  }

  /** The callback's loop over the filters: it stops at the first filter that rejects `file`. */
  method PassesFilters(filters: seq<Filter>, file: string) returns (pass: bool)
    ensures pass <==> AllPass(filters, file)
  {
    for i := 0 to |filters|
      invariant forall j :: 0 <= j < i ==> filters[j](file)
    {
      if !filters[i](file) {
        return false;
      }
    }
    return true;
  }

  /**
   * The function StreamFiles hands to filepath.Walk, called for `file` with what the walk learnt
   * about it: a failure is returned as it is, a directory is passed over, and any other path is
   * sent when every filter lets it pass.
   */
  method VisitFile(file: string, info: Info, files: Channel, filters: seq<Filter>) returns (err: Option<WalkError>)
    requires !files.closed
    modifies files
    ensures !files.closed
    ensures err == if info.Failed? then Some(WalkError(file, info.reason)) else None
    ensures files.sent == old(files.sent) + if Emits(filters, Visit(file, info)) then [file] else []
  {
    if info.Failed? {
      return Some(WalkError(file, info.reason));
    }
    if info == IsDir {
      return None;
    }
    var pass := PassesFilters(filters, file);
    if !pass {
      return None;
    }
    files.Send(file);
    return None;
  }

  /**
   * filepath.Walk below `path` with the callback above: `path` first, then, for a directory,
   * its entries in listing order, stopping at the first error the callback returns.
   */
  method WalkTree(path: string, node: Node, files: Channel, filters: seq<Filter>) returns (err: Option<WalkError>)
    requires !files.closed
    modifies files
    ensures !files.closed
    ensures files.sent == old(files.sent) + Emitted(filters, Visits(path, node))
    ensures err == FirstError(Visits(path, node))
    decreases node
  {
    var info := InfoOf(node);
    err := VisitFile(path, info, files, filters);
    if node.Dir? {
      assert info == IsDir && files.sent == old(files.sent);
      WalkOfDirectory(filters, path, node.entries);
      err := WalkEntries(path, node.entries, files, filters);
    } else {
      WalkOfOneVisit(filters, Visit(path, InfoOf(node)));
    }
  }

  /** The loop of filepath.Walk over the entries `es` of the directory reached as `dir`. */
  method WalkEntries(dir: string, es: seq<Entry>, files: Channel, filters: seq<Filter>) returns (err: Option<WalkError>)
    requires !files.closed
    modifies files
    ensures !files.closed
    ensures files.sent == old(files.sent) + Emitted(filters, EntryVisits(dir, es))
    ensures err == FirstError(EntryVisits(dir, es))
    decreases es
  {
    var i := 0;
    while i < |es|
      invariant 0 <= i <= |es|
      invariant !files.closed
      invariant FailureIndex(EntryVisits(dir, es[..i])) == |EntryVisits(dir, es[..i])|
      invariant files.sent == old(files.sent) + Selected(filters, EntryVisits(dir, es[..i]))
    {
      WalkThroughEntry(filters, dir, es, i);
      ghost var before := Selected(filters, EntryVisits(dir, es[..i]));
      err := WalkTree(Join(dir, es[i].name), es[i].node, files, filters);
      AppendAssociates(old(files.sent), before, Emitted(filters, Visits(Join(dir, es[i].name), es[i].node)));
      if err.Some? {
        return;
      }
      i := i + 1;
    }
    assert es[..i] == es;
    ghost var vs := EntryVisits(dir, es);
    assert vs[..FailureIndex(vs)] == vs;
    err := None;
  }

  /**
   * StreamFiles: when nothing exists at `path` the channel is closed and nothing is sent;
   * otherwise the walk runs, the channel is closed, and the walk's error is returned.
   */
  method StreamFiles(path: string, lookup: Lookup, files: Channel, filters: seq<Filter>) returns (err: Option<WalkError>)
    requires !files.closed
    modifies files
    ensures files.closed
    ensures files.sent == old(files.sent) + Stream(path, lookup, filters).emitted
    ensures err == Stream(path, lookup, filters).err
  {
    if lookup.Missing? {
      files.Close();
      assert old(files.sent) + [] == old(files.sent);
      return None;
    }
    err := WalkTree(path, lookup.node, files, filters);
    files.Close();
  }
}
