/**
 * The selection state of the browser client that the web companion serves
 * (the script embedded in `web_companion.rs`). The client keeps a list of
 * workspaces, the threads listed under each workspace id, and the ids of the
 * active workspace and thread; `''` means "none".
 *
 * A missing or non-string `path` or `cwd` reads as `''`: the script's
 * `|| ''` and `normalizePath`'s type test treat it so everywhere. A missing
 * workspace `id` reads as `''` too: the script only looks a workspace up by a
 * non-empty id, and takes its `id || ''` as the default. A thread's `id` is
 * different: `threads.some((t) => t.id === state.threadId)` tells a missing
 * id apart from `''`, so a thread's id is an `Option`, `None` when missing.
 */
module CompanionClient {
  import opened Base
  import opened Text

  datatype Workspace = Workspace(id: string, path: string)
  datatype Thread = Thread(id: Option<string>, cwd: string)

  // ---------------------------------------------------------------------
  // Paths

  /** `replace(/\\/g, '/')` */
  function ForwardSlashes(s: string): (r: string)
    ensures |r| == |s|
    ensures forall i :: 0 <= i < |s| ==> r[i] == (if s[i] == '\\' then '/' else s[i])
  {
    seq(|s|, i requires 0 <= i < |s| => if s[i] == '\\' then '/' else s[i])
  }

  /** `replace(/\/+$/, '')`: the longest prefix that does not end in `/`. */
  function StripTrailingSlashes(s: string): (r: string)
    ensures |r| <= |s| && r == s[..|r|]
    ensures forall i :: |r| <= i < |s| ==> s[i] == '/'
    ensures r == [] || r[|r| - 1] != '/'
    decreases |s|
  {
    if s != [] && s[|s| - 1] == '/' then StripTrailingSlashes(s[..|s| - 1]) else s
  }

  /** No backslash, no ASCII capital, no slash at the end: the form `normalizePath` produces. */
  predicate Normalized(s: string) {
    && (s == [] || s[|s| - 1] != '/')
    && (forall i :: 0 <= i < |s| ==> s[i] != '\\' && !('A' <= s[i] <= 'Z'))
  }

  /**
   * `normalizePath`: backslashes become slashes, trailing slashes go, and the
   * rest is lower-cased (`NormalizePathChars` says which characters remain).
   */
  function NormalizePath(path: string): (r: string)
    ensures |r| <= |path|
    ensures Normalized(r)
  {
    AsciiLower(StripTrailingSlashes(ForwardSlashes(path)))
  }

  /**
   * The normal form is the lower-cased prefix of the path that leaves out
   * exactly the run of separators at its end.
   */
  lemma NormalizePathChars(path: string)
    ensures var r := NormalizePath(path);
            && (forall i :: 0 <= i < |r| ==> r[i] == AsciiLowerChar(if path[i] == '\\' then '/' else path[i]))
            && (forall i :: |r| <= i < |path| ==> path[i] == '/' || path[i] == '\\')
  {
  }

  /** A normalised path is its own normal form. */
  lemma NormalizePathIdempotent(path: string)
    ensures NormalizePath(NormalizePath(path)) == NormalizePath(path)
  {
    var n := NormalizePath(path);
    assert ForwardSlashes(n) == n;
    assert StripTrailingSlashes(n) == n;
    assert AsciiLower(n) == n;
  }

  /** Separators at the end of a path do not matter: `C:\Repo\` and `c:/repo` are one path. */
  lemma NormalizeIgnoresTrailingSeparator(path: string, sep: char)
    requires sep == '/' || sep == '\\'
    ensures NormalizePath(path + [sep]) == NormalizePath(path)
  {
    assert ForwardSlashes(path + [sep]) == ForwardSlashes(path) + ['/'];
    assert (ForwardSlashes(path) + ['/'])[..|ForwardSlashes(path) + ['/']| - 1] == ForwardSlashes(path);
  }

  /** `c` is the directory `p` or lies below it. */
  predicate UnderPath(c: string, p: string) {
    c == p || (|p| < |c| && c[..|p|] == p && c[|p|] == '/')
  }

  /**
   * `threadBelongsToWorkspace`: a thread or workspace without a usable path
   * matches everything; otherwise the thread's working directory must be the
   * workspace path or lie below it, compared after normalisation.
   */
  function ThreadBelongsToWorkspace(thread: Thread, workspace: Workspace): (r: bool)
    ensures var c, p := NormalizePath(thread.cwd), NormalizePath(workspace.path);
            r <==> c == [] || p == [] || UnderPath(c, p)
  {
    var cwd := NormalizePath(thread.cwd);
    var workspacePath := NormalizePath(workspace.path);
    if cwd == [] || workspacePath == [] then true
    else
      StartsWithSlash(cwd, workspacePath);
      cwd == workspacePath || StartsWith(cwd, workspacePath + "/")
  }

  /** `String.prototype.startsWith` */
  predicate StartsWith(s: string, prefix: string) {
    |prefix| <= |s| && s[..|prefix|] == prefix
  }

  lemma StartsWithSlash(c: string, p: string)
    ensures StartsWith(c, p + "/") <==> |p| < |c| && c[..|p|] == p && c[|p|] == '/'
  {
    if |p| < |c| && c[..|p|] == p && c[|p|] == '/' {
      assert c[..|p| + 1] == c[..|p|] + [c[|p|]];
    }
    if StartsWith(c, p + "/") {
      assert c[..|p|] == c[..|p| + 1][..|p|];
    }
  }

  /** A thread whose directory is the workspace's own path belongs to it, however either is spelled. */
  lemma WorkspaceOwnsItsPath(id: Option<string>, workspace: Workspace, cwd: string)
    requires NormalizePath(cwd) == NormalizePath(workspace.path)
    ensures ThreadBelongsToWorkspace(Thread(id, cwd), workspace)
  {
  }

  /** Membership looks at paths only through their normal form. */
  lemma BelongsUpToNormalization(thread: Thread, workspace: Workspace)
    ensures ThreadBelongsToWorkspace(thread.(cwd := NormalizePath(thread.cwd)), workspace.(path := NormalizePath(workspace.path)))
            == ThreadBelongsToWorkspace(thread, workspace)
  {
    NormalizePathIdempotent(thread.cwd);
    NormalizePathIdempotent(workspace.path);
  }

  /** A directory whose name merely starts with the workspace's name is not inside it. */
  lemma SiblingNotInside(id: Option<string>, workspace: Workspace, cwd: string)
    requires NormalizePath(workspace.path) != []
    requires |NormalizePath(workspace.path)| < |NormalizePath(cwd)|
    requires NormalizePath(cwd)[|NormalizePath(workspace.path)|] != '/'
    ensures !ThreadBelongsToWorkspace(Thread(id, cwd), workspace)
  {
  }

  /** Being inside is transitive: a thread inside a nested workspace is inside the enclosing one. */
  lemma {:induction false} UnderPathTransitive(c: string, p: string, q: string)
    requires UnderPath(c, p) && UnderPath(p, q)
    ensures UnderPath(c, q)
  {
    if c != p && p != q {
      assert c[..|q|] == c[..|p|][..|q|];
      assert c[|q|] == c[..|p|][|q|];
    }
  }

  lemma NestedWorkspaces(thread: Thread, inner: Workspace, outer: Workspace)
    requires NormalizePath(thread.cwd) != [] && NormalizePath(inner.path) != []
    requires ThreadBelongsToWorkspace(thread, inner)
    requires ThreadBelongsToWorkspace(Thread(Some(inner.id), inner.path), outer)
    ensures ThreadBelongsToWorkspace(thread, outer)
  {
    if NormalizePath(outer.path) != [] {
      UnderPathTransitive(NormalizePath(thread.cwd), NormalizePath(inner.path), NormalizePath(outer.path));
    }
  }

  // ---------------------------------------------------------------------
  // Thread lists

  /** `Array.prototype.filter` */
  function Filter<T>(s: seq<T>, keep: T -> bool): (r: seq<T>)
    ensures |r| <= |s|
    ensures forall i :: 0 <= i < |r| ==> keep(r[i]) && r[i] in s
    ensures forall i :: 0 <= i < |s| && keep(s[i]) ==> s[i] in r
  {
    if s == [] then [] else (if keep(s[0]) then [s[0]] else []) + Filter(s[1..], keep)
  }

  /** A one-element list keeps its element exactly when it passes. */
  lemma FilterSingle<T>(x: T, keep: T -> bool)
    ensures Filter([x], keep) == if keep(x) then [x] else []
  {
    assert [x][1..] == [];
  }

  /** Filtering works piecewise, so it keeps the order and the repetitions of what passes. */
  lemma {:induction false} FilterAppend<T>(a: seq<T>, b: seq<T>, keep: T -> bool)
    ensures Filter(a + b, keep) == Filter(a, keep) + Filter(b, keep)
  {
    if a == [] {
      assert a + b == b;
    } else {
      assert (a + b)[0] == a[0];
      assert (a + b)[1..] == a[1..] + b;
      FilterAppend(a[1..], b, keep);
    }
  }

  /** The first element kept is the first element that passes. */
  lemma {:induction false} FilterFirst<T>(s: seq<T>, keep: T -> bool, j: nat)
    requires j < |s| && keep(s[j])
    requires forall k :: 0 <= k < j ==> !keep(s[k])
    ensures Filter(s, keep) != [] && Filter(s, keep)[0] == s[j]
  {
    if j > 0 {
      FilterFirst(s[1..], keep, j - 1);
    }
  }

  /** Two filters in a row are one filter by both tests. */
  lemma {:induction false} FilterFilter<T>(s: seq<T>, p: T -> bool, q: T -> bool, pq: T -> bool)
    requires forall x :: pq(x) == (p(x) && q(x))
    ensures Filter(Filter(s, p), q) == Filter(s, pq)
  {
    if s != [] {
      FilterFilter(s[1..], p, q, pq);
      if p(s[0]) {
        assert Filter(s, p) == [s[0]] + Filter(s[1..], p);
        FilterAppend([s[0]], Filter(s[1..], p), q);
        FilterSingle(s[0], q);
        assert pq(s[0]) == q(s[0]);
      } else {
        assert Filter(s, p) == Filter(s[1..], p);
        assert !pq(s[0]);
      }
    }
  }

  predicate HasCwd(thread: Thread) {
    thread.cwd != []
  }

  /** The test `threadBelongsToWorkspace(thread, workspace)` as a filter argument. */
  function BelongsTo(workspace: Workspace): Thread -> bool {
    t => ThreadBelongsToWorkspace(t, workspace)
  }

  /** The threads that survive the cwd filter: those with a cwd inside the workspace. */
  function KeepFor(workspace: Workspace): Thread -> bool {
    t => HasCwd(t) && ThreadBelongsToWorkspace(t, workspace)
  }

  /**
   * The filtering step of `refreshThreadsForWorkspace` (applied after its
   * sort): when no thread reports a working directory the list is kept as is;
   * otherwise only the threads with one that belongs to the workspace remain.
   */
  function WorkspaceThreads(threads: seq<Thread>, workspace: Workspace): (r: seq<Thread>)
    ensures (forall i :: 0 <= i < |threads| ==> !HasCwd(threads[i])) ==> r == threads
    ensures (exists i :: 0 <= i < |threads| && HasCwd(threads[i])) ==>
              (forall i :: 0 <= i < |r| ==> r[i] in threads && HasCwd(r[i]) && ThreadBelongsToWorkspace(r[i], workspace))
              && (forall i :: 0 <= i < |threads| && HasCwd(threads[i]) && ThreadBelongsToWorkspace(threads[i], workspace) ==> threads[i] in r)
    ensures (exists i :: 0 <= i < |threads| && HasCwd(threads[i])) ==> r == Filter(threads, KeepFor(workspace))
  {
    var withCwd := Filter(threads, HasCwd);
    if withCwd == [] then
      assert forall i :: 0 <= i < |threads| ==> !HasCwd(threads[i]);
      threads
    else
      assert exists i :: 0 <= i < |threads| && HasCwd(threads[i]) by {
        assert withCwd[0] in threads;
      }
      FilterFilter(threads, HasCwd, BelongsTo(workspace), KeepFor(workspace));
      Filter(withCwd, BelongsTo(workspace))
  }

  /**
   * The filter keeps the sorted order: when some thread has a cwd, the list
   * starts with the first thread whose cwd lies inside the workspace.
   */
  lemma WorkspaceThreadsFirst(threads: seq<Thread>, workspace: Workspace, j: nat)
    requires exists i :: 0 <= i < |threads| && HasCwd(threads[i])
    requires j < |threads| && HasCwd(threads[j]) && ThreadBelongsToWorkspace(threads[j], workspace)
    requires forall k :: 0 <= k < j ==> !(HasCwd(threads[k]) && ThreadBelongsToWorkspace(threads[k], workspace))
    ensures var r := WorkspaceThreads(threads, workspace); r != [] && r[0] == threads[j]
  {
    FilterFirst(threads, KeepFor(workspace), j);
  }

  /** Filtering a concatenation of fetched pages filters each page in turn. */
  lemma WorkspaceThreadsAppend(a: seq<Thread>, b: seq<Thread>, workspace: Workspace)
    requires exists i :: 0 <= i < |a| && HasCwd(a[i])
    ensures WorkspaceThreads(a + b, workspace) == WorkspaceThreads(a, workspace) + Filter(b, KeepFor(workspace))
  {
    var i :| 0 <= i < |a| && HasCwd(a[i]);
    assert (a + b)[i] == a[i];
    FilterAppend(a, b, KeepFor(workspace));
  }

  /** Some workspace in the list has this id (`getWorkspaceById` finds one). */
  predicate HasWorkspace(workspaces: seq<Workspace>, id: string) {
    exists i :: 0 <= i < |workspaces| && workspaces[i].id == id
  }

  /** `threads.some((thread) => thread.id === id)`: a thread without an id matches no id, not even `''`. */
  predicate HasThread(threads: seq<Thread>, id: string) {
    exists i :: 0 <= i < |threads| && threads[i].id == Some(id)
  }

  /** `threads[0]?.id || ''`: the id of the first thread, `''` when there is none or it has none. */
  function FirstThreadId(threads: seq<Thread>): (r: string)
    ensures r != [] ==> HasThread(threads, r) && threads[0].id == Some(r)
    ensures threads == [] || threads[0].id.None? ==> r == []
  {
    if threads == [] then [] else threads[0].id.GetOr([])
  }

  /** `getWorkspaceById`: the first workspace with the id. */
  function FindWorkspace(workspaces: seq<Workspace>, id: string): (r: Option<Workspace>)
    ensures r.None? <==> !HasWorkspace(workspaces, id)
    ensures r.Some? ==> r.value.id == id && r.value in workspaces
  {
    if workspaces == [] then None
    else if workspaces[0].id == id then Some(workspaces[0])
    else
      assert forall i :: 1 <= i < |workspaces| ==> workspaces[i] == workspaces[1..][i - 1];
      FindWorkspace(workspaces[1..], id)
  }

  /** `state.threadsByWorkspace[id] || []` */
  function ThreadsOf(threadsByWorkspace: map<string, seq<Thread>>, id: string): seq<Thread> {
    if id in threadsByWorkspace then threadsByWorkspace[id] else []
  }

  // ---------------------------------------------------------------------
  // Selection rules

  /**
   * The workspace `ensureWorkspaceSelection` leaves active: the current one if
   * it is set and listed, else the first listed one, else none.
   */
  function SelectWorkspace(current: string, workspaces: seq<Workspace>): (r: string)
    ensures current != [] && HasWorkspace(workspaces, current) ==> r == current
    ensures !(current != [] && HasWorkspace(workspaces, current)) ==>
              r == (if workspaces == [] then [] else workspaces[0].id)
  {
    if current != [] && FindWorkspace(workspaces, current).Some? then current
    else if workspaces == [] then []
    else workspaces[0].id
  }

  /** The selected workspace is always none or a listed one. */
  lemma SelectedWorkspaceListed(current: string, workspaces: seq<Workspace>)
    ensures var r := SelectWorkspace(current, workspaces);
            r == [] || HasWorkspace(workspaces, r)
  {
  }

  /** No workspace is selected exactly when the current one is unusable and the list offers none. */
  lemma NoWorkspaceSelected(current: string, workspaces: seq<Workspace>)
    ensures SelectWorkspace(current, workspaces) == [] <==>
            !(current != [] && HasWorkspace(workspaces, current)) && (workspaces == [] || workspaces[0].id == [])
  {
  }

  /** Reconciling twice is reconciling once. */
  lemma SelectWorkspaceIdempotent(current: string, workspaces: seq<Workspace>)
    ensures SelectWorkspace(SelectWorkspace(current, workspaces), workspaces) == SelectWorkspace(current, workspaces)
  {
    var r := SelectWorkspace(current, workspaces);
    if r != [] {
      assert HasWorkspace(workspaces, r);
    }
  }

  /**
   * The thread `ensureThreadSelection` leaves active: none without an active
   * workspace; otherwise the current one if that workspace lists it, else the
   * first one it lists, else none.
   */
  function SelectThread(workspaceId: string, current: string, threadsByWorkspace: map<string, seq<Thread>>): (r: string)
    ensures workspaceId == [] ==> r == []
    ensures workspaceId != [] && HasThread(ThreadsOf(threadsByWorkspace, workspaceId), current) ==> r == current
    ensures workspaceId != [] && !HasThread(ThreadsOf(threadsByWorkspace, workspaceId), current) ==>
              var threads := ThreadsOf(threadsByWorkspace, workspaceId);
              r == FirstThreadId(threads)
  {
    if workspaceId == [] then []
    else
      var threads := ThreadsOf(threadsByWorkspace, workspaceId);
      if HasThread(threads, current) then current
      else FirstThreadId(threads)
  }

  /** The selected thread is always none or one the active workspace lists. */
  lemma SelectedThreadListed(workspaceId: string, current: string, threadsByWorkspace: map<string, seq<Thread>>)
    ensures var r := SelectThread(workspaceId, current, threadsByWorkspace);
            r == [] || HasThread(ThreadsOf(threadsByWorkspace, workspaceId), r)
  {
  }

  lemma SelectThreadIdempotent(workspaceId: string, current: string, threadsByWorkspace: map<string, seq<Thread>>)
    ensures var r := SelectThread(workspaceId, current, threadsByWorkspace);
            SelectThread(workspaceId, r, threadsByWorkspace) == r
  {
    var r := SelectThread(workspaceId, current, threadsByWorkspace);
    if workspaceId != [] && r != [] {
      assert HasThread(ThreadsOf(threadsByWorkspace, workspaceId), r);
    }
  }

  /**
   * `Object.fromEntries(workspaces.map((w, i) => [w.id, lists[i]]))`: every
   * listed id is a key and nothing else is (`FromEntriesLast` says which list
   * each key holds).
   */
  function FromEntries(workspaces: seq<Workspace>, lists: seq<seq<Thread>>): (r: map<string, seq<Thread>>)
    requires |lists| == |workspaces|
    ensures forall k :: k in r <==> HasWorkspace(workspaces, k)
  {
    if workspaces == [] then map[]
    else
      var n := |workspaces| - 1;
      HasWorkspaceSplit(workspaces);
      FromEntries(workspaces[..n], lists[..n])[workspaces[n].id := lists[n]]
  }

  lemma HasWorkspaceSplit(workspaces: seq<Workspace>)
    requires workspaces != []
    ensures forall k :: HasWorkspace(workspaces, k) <==>
              HasWorkspace(workspaces[..|workspaces| - 1], k) || workspaces[|workspaces| - 1].id == k
  {
    var n := |workspaces| - 1;
    forall k | HasWorkspace(workspaces, k) && workspaces[n].id != k
      ensures HasWorkspace(workspaces[..n], k)
    {
      var i :| 0 <= i < |workspaces| && workspaces[i].id == k;
      assert workspaces[..n][i].id == k;
    }
    forall k | HasWorkspace(workspaces[..n], k)
      ensures HasWorkspace(workspaces, k)
    {
      var i :| 0 <= i < n && workspaces[..n][i].id == k;
      assert workspaces[i].id == k;
    }
  }

  /** A key holds the list of the last workspace carrying that id: later entries overwrite earlier ones. */
  lemma {:induction false} FromEntriesLast(workspaces: seq<Workspace>, lists: seq<seq<Thread>>, i: nat)
    requires |lists| == |workspaces|
    requires i < |workspaces|
    requires forall j :: i < j < |workspaces| ==> workspaces[j].id != workspaces[i].id
    ensures workspaces[i].id in FromEntries(workspaces, lists)
    ensures FromEntries(workspaces, lists)[workspaces[i].id] == lists[i]
  {
    var n := |workspaces| - 1;
    var earlier := FromEntries(workspaces[..n], lists[..n]);
    assert FromEntries(workspaces, lists) == earlier[workspaces[n].id := lists[n]];
    if i < n {
      var front := workspaces[..n];
      assert front[i] == workspaces[i];
      forall j | i < j < n
        ensures front[j].id != front[i].id
      {
        assert front[j] == workspaces[j];
      }
      FromEntriesLast(front, lists[..n], i);
      assert workspaces[n].id != workspaces[i].id;
    }
  }

  // ---------------------------------------------------------------------
  // The client state

  /** The fields of the script's global `state` that the selection rules touch. */
  class CompanionState {
    var workspaces: seq<Workspace>
    var threadsByWorkspace: map<string, seq<Thread>>
    var workspaceId: string
    var threadId: string

    /**
     * The selection is coherent: the active workspace is none or listed, the
     * active thread is none or listed under it, and there is no thread
     * without a workspace.
     */
    predicate Consistent()
      reads this
    {
      && (workspaceId == [] || HasWorkspace(workspaces, workspaceId))
      && (threadId == [] || HasThread(ThreadsOf(threadsByWorkspace, workspaceId), threadId))
      && (workspaceId == [] ==> threadId == [])
    }

    /** The state the script starts from. */
    constructor ()
      ensures workspaces == [] && threadsByWorkspace == map[] && workspaceId == [] && threadId == []
      ensures Consistent()
    {
      workspaces := [];
      threadsByWorkspace := map[];
      workspaceId := [];
      threadId := [];
    }

    /** `ensureWorkspaceSelection` */
    method EnsureWorkspaceSelection()
      modifies this
      ensures workspaceId == SelectWorkspace(old(workspaceId), workspaces)
      ensures workspaces == old(workspaces) && threadsByWorkspace == old(threadsByWorkspace) && threadId == old(threadId)
      ensures workspaceId == [] || HasWorkspace(workspaces, workspaceId)
    {
      if workspaceId != [] && FindWorkspace(workspaces, workspaceId).Some? {
        return;
      }
      workspaceId := if workspaces == [] then [] else workspaces[0].id;
    }

    /** `ensureThreadSelection` */
    method EnsureThreadSelection()
      modifies this
      ensures threadId == SelectThread(workspaceId, old(threadId), threadsByWorkspace)
      ensures workspaces == old(workspaces) && threadsByWorkspace == old(threadsByWorkspace) && workspaceId == old(workspaceId)
      ensures (old(workspaceId) == [] || HasWorkspace(workspaces, workspaceId)) ==> Consistent()
    {
      if workspaceId == [] {
        threadId := [];
        return;
      }
      var threads := ThreadsOf(threadsByWorkspace, workspaceId);
      var listed := HasThread(threads, threadId);
      if !listed {
        threadId := if threads == [] then [] else threads[0].id.GetOr([]);
      }
    }

    /**
     * `refreshWorkspaces` with the fetched `workspaces` field: `None` when it
     * is not an array, which empties the list. An empty list clears both
     * selections; otherwise the workspace selection is reconciled and the
     * thread selection is left for `refreshAllThreads`.
     */
    method RefreshWorkspaces(fetched: Option<seq<Workspace>>)
      modifies this
      ensures workspaces == fetched.GetOr([])
      ensures workspaceId == SelectWorkspace(old(workspaceId), workspaces)
      ensures threadId == (if workspaces == [] then [] else old(threadId))
      ensures threadsByWorkspace == old(threadsByWorkspace)
      ensures workspaceId == [] || HasWorkspace(workspaces, workspaceId)
    {
      workspaces := fetched.GetOr([]);
      if workspaces == [] {
        workspaceId := [];
        threadId := [];
      }
      EnsureWorkspaceSelection();
    }

    /**
     * The state update of `refreshAllThreads`, given the list fetched for each
     * workspace in order (`[]` for one whose fetch failed).
     */
    method RefreshAllThreads(lists: seq<seq<Thread>>)
      requires |lists| == |workspaces|
      modifies this
      ensures workspaces == old(workspaces) && workspaceId == old(workspaceId)
      ensures threadsByWorkspace == FromEntries(workspaces, lists)
      ensures threadId == SelectThread(workspaceId, old(threadId), threadsByWorkspace)
      ensures (workspaceId == [] || HasWorkspace(workspaces, workspaceId)) ==> Consistent()
    {
      threadsByWorkspace := FromEntries(workspaces, lists);
      EnsureThreadSelection();
    }
  }

  /**
   * A full refresh (`refreshWorkspaces` then `refreshAllThreads`) always leaves
   * a coherent selection, whatever the state was before and whatever arrived.
   */
  method FullRefresh(s: CompanionState, fetched: Option<seq<Workspace>>, lists: seq<seq<Thread>>)
    requires |lists| == |fetched.GetOr([])|
    modifies s
    ensures s.Consistent()
    ensures s.workspaces == fetched.GetOr([])
    ensures s.threadsByWorkspace == FromEntries(s.workspaces, lists)
    ensures s.workspaceId == SelectWorkspace(old(s.workspaceId), s.workspaces)
    ensures s.threadId == SelectThread(s.workspaceId, old(s.threadId), s.threadsByWorkspace)
  {
    s.RefreshWorkspaces(fetched);
    s.RefreshAllThreads(lists);
  }

  /**
   * A thread without an id never counts as the active thread, even when none
   * is active (`undefined !== ''`), so the first thread's id is taken.
   */
  lemma MissingThreadIdNeverMatches(first: string, cwd: string)
    requires first != []
    ensures !HasThread([Thread(Some(first), cwd), Thread(None, cwd)], [])
    ensures SelectThread("w", [], map["w" := [Thread(Some(first), cwd), Thread(None, cwd)]]) == first
  {
    var threads := [Thread(Some(first), cwd), Thread(None, cwd)];
    assert ThreadsOf(map["w" := threads], "w") == threads;
  }

  /** The active thread survives a refresh that still lists it under the still-active workspace. */
  lemma RefreshKeepsListedThread(workspaceId: string, threadId: string, workspaces: seq<Workspace>, lists: seq<seq<Thread>>, i: nat)
    requires |lists| == |workspaces|
    requires workspaceId != [] && threadId != []
    requires i < |workspaces| && workspaces[i].id == workspaceId
    requires forall j :: i < j < |workspaces| ==> workspaces[j].id != workspaceId
    requires HasThread(lists[i], threadId)
    ensures SelectWorkspace(workspaceId, workspaces) == workspaceId
    ensures SelectThread(workspaceId, threadId, FromEntries(workspaces, lists)) == threadId
  {
    FromEntriesLast(workspaces, lists, i);
  }
}
