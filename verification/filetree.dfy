/**
 * The directory tree the store walks, `Utils.travers` and `Utils.list` with
 * `FILE_COMPARATOR`.
 *
 * A `Node` is what the file system lists: a regular file or a directory with
 * its entries in the order `File.listFiles()` returns them. A walk hands each
 * node to a handler together with the names leading to it from the walk's root.
 * The handler is a state transformer: it either finishes with a new state or
 * throws an exception (after having produced some state).
 */
module FileTree {
  import opened Wrappers
  import opened JavaLang

  /**
   * A directory entry. For a file, `length` is what `File.length()` reports and
   * `content` what reading the file yields; the two disagree only when the file
   * changes while it is being read.
   */
  datatype Node =
    | File(name: string, length: nat, content: seq<Byte>)
    | Dir(name: string, children: seq<Node>)

  /** A handler call: a node and the names leading to it from the root (empty for the root itself). */
  datatype Visit = Visit(path: seq<string>, node: Node)

  /** The visit of the `i`-th entry of a directory visit. */
  function Child(v: Visit, i: nat): (c: Visit)
    requires v.node.Dir? && i < |v.node.children|
    ensures c.node == v.node.children[i] && c.path == v.path + [c.node.name]
  {
    Visit(v.path + [v.node.children[i].name], v.node.children[i])
  }

  /* ---------------------------------------------------------------- */
  /* The order in which `travers` reaches the nodes                    */
  /* ---------------------------------------------------------------- */

  /**
   * The visits `travers` makes below and at `v`, in order: the node itself,
   * then the regular files among its entries in listing order, then the walks
   * of its subdirectories, the last-listed first (each subdirectory is pushed
   * onto the front of the work list).
   */
  function Walk(v: Visit): seq<Visit>
    decreases v.node, 1
  {
    [v] + if v.node.Dir? then FileVisits(v, 0) + DirWalks(v, 0) else []
  }

  /** The visits of the regular files among the entries `lo..` of directory visit `v`, in listing order. */
  function FileVisits(v: Visit, lo: nat): seq<Visit>
    requires v.node.Dir? && lo <= |v.node.children|
    decreases |v.node.children| - lo
  {
    if lo == |v.node.children| then []
    else (if v.node.children[lo].File? then [Child(v, lo)] else []) + FileVisits(v, lo + 1)
  }

  /** The walks of the subdirectories among the entries `lo..` of directory visit `v`, the last-listed first. */
  function DirWalks(v: Visit, lo: nat): seq<Visit>
    requires v.node.Dir? && lo <= |v.node.children|
    decreases v.node, 0, |v.node.children| - lo
  {
    if lo == |v.node.children| then []
    else
      DirWalks(v, lo + 1)
      + if v.node.children[lo].Dir? then Walk(Visit(v.path + [v.node.children[lo].name], v.node.children[lo])) else []
  }

  /** The walks of the directories still on the work list, front first. */
  function Pending(dirs: seq<Visit>): seq<Visit>
  {
    if dirs == [] then [] else Walk(dirs[0]) + Pending(dirs[1..])
  }

  /** Every node below and at `v`, each once, as an independent reference for `Walk`. */
  ghost function Subtree(v: Visit): multiset<Visit>
    decreases v.node, 1
  {
    multiset{v} + if v.node.Dir? then ChildSubtrees(v, 0) else multiset{}
  }

  ghost function ChildSubtrees(v: Visit, lo: nat): multiset<Visit>
    requires v.node.Dir? && lo <= |v.node.children|
    decreases v.node, 0, |v.node.children| - lo
  {
    if lo == |v.node.children| then multiset{}
    else Subtree(Visit(v.path + [v.node.children[lo].name], v.node.children[lo])) + ChildSubtrees(v, lo + 1)
  }

  /** The walk reaches every directory and every regular file below the root exactly once. */
  lemma {:induction false} WalkCoversTree(v: Visit)
    ensures multiset(Walk(v)) == Subtree(v)
    decreases v.node, 1
  {
    if v.node.Dir? {
      ChildrenCovered(v, 0);
    }
  }

  lemma {:induction false} ChildrenCovered(v: Visit, lo: nat)
    requires v.node.Dir? && lo <= |v.node.children|
    ensures multiset(FileVisits(v, lo) + DirWalks(v, lo)) == ChildSubtrees(v, lo)
    decreases v.node, 0, |v.node.children| - lo
  {
    if lo < |v.node.children| {
      var c := Visit(v.path + [v.node.children[lo].name], v.node.children[lo]);
      ChildrenCovered(v, lo + 1);
      if c.node.Dir? {
        WalkCoversTree(c);
      } else {
        assert Subtree(c) == multiset{c};
      }
    }
  }

  /* ---------------------------------------------------------------- */
  /* Running a handler over a sequence of visits                       */
  /* ---------------------------------------------------------------- */

  /** What one handler call does: finish with a state, or throw after having produced one. */
  datatype Handled<S> = Done(state: S) | Threw(error: Exc, state: S)

  type Handler<!S> = (S, Visit) -> Handled<S>

  /** The state after a run and the exception that stopped it, if any. */
  datatype RunResult<S> = RunResult(state: S, caught: Option<Exc>)

  /** The handler applied to the visits in order, stopping at the first exception. */
  function Run<S>(h: Handler<S>, s: S, vs: seq<Visit>): RunResult<S>
    decreases |vs|
  {
    if vs == [] then RunResult(s, None)
    else match h(s, vs[0])
      case Done(s1) => Run(h, s1, vs[1..])
      case Threw(e, s1) => RunResult(s1, Some(e))
  }

  lemma RunCons<S>(h: Handler<S>, s: S, v: Visit, rest: seq<Visit>)
    ensures Run(h, s, [v] + rest) ==
      var r := h(s, v);
      if r.Done? then Run(h, r.state, rest) else RunResult(r.state, Some(r.error))
  {
    assert ([v] + rest)[1..] == rest;
  }

  /** A run over `a + b` is a run over `a` continued over `b` from where it stopped, if it did not stop on an exception. */
  lemma {:induction false} RunAppend<S>(h: Handler<S>, s: S, a: seq<Visit>, b: seq<Visit>)
    ensures Run(h, s, a).caught.None? ==> Run(h, s, a + b) == Run(h, Run(h, s, a).state, b)
    ensures Run(h, s, a).caught.Some? ==> Run(h, s, a + b) == Run(h, s, a)
    decreases |a|
  {
    if a != [] {
      assert a + b != [] && (a + b)[0] == a[0] && (a + b)[1..] == a[1..] + b;
      var r := h(s, a[0]);
      if r.Done? {
        RunAppend(h, r.state, a[1..], b);
      }
    } else {
      assert a + b == b;
    }
  }

  /* ---------------------------------------------------------------- */
  /* travers                                                           */
  /* ---------------------------------------------------------------- */

  /**
   * `Utils.travers(file, handler)`. Nothing happens for a null root or handler.
   * For a directory the handler runs over `Walk` until it first throws; that
   * exception is recorded, ends the walk and is never re-thrown. A regular file
   * as root is handled once (an exception there does propagate), then the loop
   * handles it a second time (an exception there is swallowed) and, if that
   * returns, listing the file yields null and streaming it throws a
   * NullPointerException.
   */
  method Travers<S>(root: Option<Node>, handler: Option<Handler<S>>, s0: S) returns (s: S, thrown: Option<Exc>)
    ensures root.None? || handler.None? ==> s == s0 && thrown.None?
    ensures root.Some? && root.value.Dir? && handler.Some? ==>
      thrown.None? && s == Run(handler.value, s0, Walk(Visit([], root.value))).state
    ensures root.Some? && root.value.File? && handler.Some? ==>
      var v := Visit([], root.value);
      var first := handler.value(s0, v);
      if first.Threw? then s == first.state && thrown == Some(first.error)
      else
        var second := handler.value(first.state, v);
        s == second.state && thrown == if second.Threw? then None else Some(NullPointer(""))
  {
    s, thrown := s0, None;
    if root.None? || handler.None? {
      return;
    }
    var h := handler.value;
    var top := Visit([], root.value);
    if top.node.File? {
      var first := h(s, top);
      if first.Threw? {
        return first.state, Some(first.error);
      }
      // The work loop's first pass: the file is handled again, and then
      // `listFiles()` of a file is null, which `Stream.of` rejects.
      var second := h(first.state, top);
      if second.Threw? {
        return second.state, None;
      }
      return second.state, Some(NullPointer(""));
    }
    s := WorkList(h, top, s0);
  }

  /** What is left of a work-loop pass over `dir` at entry `j`, followed by the work list. */
  function Remaining(dir: Visit, j: nat, dirs: seq<Visit>): seq<Visit>
    requires dir.node.Dir? && j <= |dir.node.children|
  {
    FileVisits(dir, j) + DirWalks(dir, j) + Pending(dirs)
  }

  /** A subdirectory entry moves onto the front of the work list. */
  lemma RemainingDir(dir: Visit, j: nat, dirs: seq<Visit>)
    requires dir.node.Dir? && j < |dir.node.children| && dir.node.children[j].Dir?
    ensures Remaining(dir, j, dirs) == Remaining(dir, j + 1, [Child(dir, j)] + dirs)
    ensures |Remaining(dir, j + 1, dirs)| <= |Remaining(dir, j, dirs)|
  {
    var c := Child(dir, j);
    assert FileVisits(dir, j) == FileVisits(dir, j + 1);
    assert DirWalks(dir, j) == DirWalks(dir, j + 1) + Walk(c);
    assert Pending([c] + dirs) == Walk(c) + Pending(dirs);
  }

  /** A regular-file entry is the next visit. */
  lemma RemainingFile(dir: Visit, j: nat, dirs: seq<Visit>)
    requires dir.node.Dir? && j < |dir.node.children| && dir.node.children[j].File?
    ensures Remaining(dir, j, dirs) == [Child(dir, j)] + Remaining(dir, j + 1, dirs)
  {
    assert FileVisits(dir, j) == [Child(dir, j)] + FileVisits(dir, j + 1);
    assert DirWalks(dir, j) == DirWalks(dir, j + 1);
  }

  /** The front of the work list is its first visit, then its entries, then the rest of the list. */
  lemma PendingFront(dirs: seq<Visit>)
    requires dirs != [] && dirs[0].node.Dir?
    ensures Pending(dirs) == [dirs[0]] + Remaining(dirs[0], 0, dirs[1..])
    ensures |Pending(dirs[1..])| < |Pending(dirs)|
  {
    var d, rest := dirs[0], dirs[1..];
    var entries, later := FileVisits(d, 0) + DirWalks(d, 0), Pending(rest);
    assert Pending(dirs) == Walk(d) + later;
    assert Walk(d) == [d] + entries;
    assert Remaining(d, 0, rest) == entries + later;
    assert ([d] + entries) + later == [d] + (entries + later);
  }

  /** The work loop of `travers` for a directory root; its exception is recorded and dropped. */
  method WorkList<S>(h: Handler<S>, top: Visit, s0: S) returns (s: S)
    requires top.node.Dir?
    ensures s == Run(h, s0, Walk(top)).state
  {
    ghost var final := Run(h, s0, Walk(top));
    var dirs := [top];
    var we: Option<Exc> := None;
    s := s0;
    assert Pending(dirs) == Walk(top) + Pending([]) == Walk(top);
    while we.None? && dirs != []
      invariant forall k :: 0 <= k < |dirs| ==> dirs[k].node.Dir?
      invariant we.None? ==> Run(h, s, Pending(dirs)) == final
      invariant we.Some? ==> RunResult(s, we) == final
      decreases |Pending(dirs)|
    {
      PendingFront(dirs);
      var dir := dirs[0];
      ghost var rest := dirs[1..];
      dirs := dirs[1..];
      RunCons(h, s, dir, Remaining(dir, 0, rest));
      var r := h(s, dir);
      if r.Threw? {
        s, we := r.state, Some(r.error);
        continue;
      }
      s, dirs, we := HandleEntries(h, dir, r.state, dirs);
    }
  }

  /**
   * One pass of the work loop after the directory itself was handled: its
   * regular files are handled in listing order and its subdirectories pushed
   * onto the front of the work list, until the handler throws; later entries
   * are filtered out.
   */
  method HandleEntries<S>(h: Handler<S>, dir: Visit, s0: S, dirs0: seq<Visit>)
    returns (s: S, dirs: seq<Visit>, we: Option<Exc>)
    requires dir.node.Dir?
    requires forall k :: 0 <= k < |dirs0| ==> dirs0[k].node.Dir?
    ensures forall k :: 0 <= k < |dirs| ==> dirs[k].node.Dir?
    ensures we.None? ==> Run(h, s, Pending(dirs)) == Run(h, s0, Remaining(dir, 0, dirs0))
    ensures we.Some? ==> RunResult(s, we) == Run(h, s0, Remaining(dir, 0, dirs0))
    ensures |Pending(dirs)| <= |Remaining(dir, 0, dirs0)|
  {
    ghost var final := Run(h, s0, Remaining(dir, 0, dirs0));
    s, dirs, we := s0, dirs0, None;
    var entries := dir.node.children;
    var j := 0;
    while j < |entries|
      invariant 0 <= j <= |entries|
      invariant forall k :: 0 <= k < |dirs| ==> dirs[k].node.Dir?
      invariant we.None? ==> Run(h, s, Remaining(dir, j, dirs)) == final
      invariant we.Some? ==> RunResult(s, we) == final
      invariant |Remaining(dir, j, dirs)| <= |Remaining(dir, 0, dirs0)|
    {
      var entry := Child(dir, j);
      if entry.node.Dir? {
        RemainingDir(dir, j, dirs);
      } else {
        RemainingFile(dir, j, dirs);
      }
      if we.None? {
        if entry.node.Dir? {
          dirs := [entry] + dirs;
        } else {
          RunCons(h, s, entry, Remaining(dir, j + 1, dirs));
          var r := h(s, entry);
          if r.Threw? {
            s, we := r.state, Some(r.error);
          } else {
            s := r.state;
          }
        }
      }
      j := j + 1;
    }
    assert Remaining(dir, j, dirs) == Pending(dirs);
  }

  /* ---------------------------------------------------------------- */
  /* list and FILE_COMPARATOR                                          */
  /* ---------------------------------------------------------------- */

  /** `FILE_COMPARATOR`: regular files before directories, otherwise by name with `String.compareTo`. */
  function FileCompare(a: Node, b: Node): int
  {
    if a.Dir? && b.File? then 1
    else if a.File? && b.Dir? then -1
    else CompareTo(a.name, b.name)
  }

  predicate Le(a: Node, b: Node)
  {
    FileCompare(a, b) <= 0
  }

  /** The comparator is zero exactly for two entries of the same kind and name. */
  lemma FileCompareZero(a: Node, b: Node)
    ensures FileCompare(a, b) == 0 <==> a.Dir? == b.Dir? && a.name == b.name
  {
    CompareToZero(a.name, b.name);
  }

  /** The comparator is antisymmetric, so any two entries are ordered one way or the other. */
  lemma FileCompareAntisymmetric(a: Node, b: Node)
    ensures FileCompare(b, a) == -FileCompare(a, b)
    ensures Le(a, b) || Le(b, a)
  {
    CompareToAntisymmetric(a.name, b.name);
  }

  /** The comparator's order is transitive. */
  lemma FileCompareTransitive(a: Node, b: Node, c: Node)
    requires Le(a, b) && Le(b, c)
    ensures Le(a, c)
  {
    if a.Dir? == b.Dir? && b.Dir? == c.Dir? {
      CompareToTransitive(a.name, b.name, c.name);
    }
  }

  predicate Sorted(s: seq<Node>)
  {
    forall i, j :: 0 <= i < j < |s| ==> Le(s[i], s[j])
  }

  /** A lower bound of `x` and of every element of `s` bounds any rearrangement `t` of them. */
  lemma LowerBoundKept(y: Node, x: Node, s: seq<Node>, t: seq<Node>)
    requires Le(y, x) && forall k :: 0 <= k < |s| ==> Le(y, s[k])
    requires multiset(t) == multiset(s) + multiset{x}
    ensures forall j :: 0 <= j < |t| ==> Le(y, t[j])
  {
    forall j | 0 <= j < |t| ensures Le(y, t[j]) {
      assert t[j] in multiset(t);
      if t[j] != x {
        assert t[j] in multiset(s);
        var k :| 0 <= k < |s| && s[k] == t[j];
      }
    }
  }

  /** `x` placed before the first element it does not exceed. */
  function Insert(x: Node, s: seq<Node>): (r: seq<Node>)
    requires Sorted(s)
    ensures Sorted(r)
    ensures multiset(r) == multiset(s) + multiset{x}
    ensures |r| == |s| + 1
  {
    if s == [] then [x]
    else if Le(x, s[0]) then
      assert forall j :: 0 <= j < |s| ==> Le(x, s[j]) by {
        forall j | 0 < j < |s| ensures Le(x, s[j]) {
          FileCompareTransitive(x, s[0], s[j]);
        }
      }
      [x] + s
    else
      FileCompareAntisymmetric(x, s[0]);
      var t := Insert(x, s[1..]);
      assert s == [s[0]] + s[1..];
      LowerBoundKept(s[0], x, s[1..], t);
      [s[0]] + t
  }

  /** `Collections.sort(list, FILE_COMPARATOR)`: a sorted permutation (as an insertion sort, which is stable). */
  function Sort(s: seq<Node>): (r: seq<Node>)
    ensures Sorted(r)
    ensures multiset(r) == multiset(s)
  {
    if s == [] then []
    else
      assert s == [s[0]] + s[1..];
      Insert(s[0], Sort(s[1..]))
  }

  /** No two entries have the same kind and name (so no two compare equal). */
  predicate DistinctKeys(s: seq<Node>)
  {
    forall i, j :: 0 <= i < j < |s| ==> FileCompare(s[i], s[j]) != 0
  }

  /** The first element of a sorted sequence is at most any of its elements. */
  lemma SortedFirst(s: seq<Node>, x: Node)
    requires Sorted(s) && x in s
    ensures Le(s[0], x)
  {
    if s[0] == x {
      CompareToZero(x.name, x.name);
    }
  }

  /** Two sorted arrangements of the same entries, with distinct keys, start alike. */
  lemma SortedSameHead(a: seq<Node>, b: seq<Node>)
    requires Sorted(a) && Sorted(b) && multiset(a) == multiset(b) && DistinctKeys(a) && a != []
    ensures b != [] && a[0] == b[0]
  {
    assert |a| == |multiset(a)| == |b|;
    assert a[0] in multiset(b) && b[0] in multiset(a);
    SortedFirst(b, a[0]);
    SortedFirst(a, b[0]);
    FileCompareAntisymmetric(a[0], b[0]);
  }

  /** Dropping the first entry keeps a sequence sorted and its keys distinct. */
  lemma SortedTail(s: seq<Node>)
    requires Sorted(s) && s != []
    ensures Sorted(s[1..])
    ensures DistinctKeys(s) ==> DistinctKeys(s[1..])
  {
    var t := s[1..];
    assert forall i :: 0 <= i < |t| ==> t[i] == s[i + 1];
  }

  /** Entries with distinct keys have exactly one sorted order, so the listing's order is determined. */
  lemma {:induction false} SortedUnique(a: seq<Node>, b: seq<Node>)
    requires Sorted(a) && Sorted(b) && multiset(a) == multiset(b) && DistinctKeys(a)
    ensures a == b
    decreases |a|
  {
    if a == [] {
      assert |b| == |multiset(b)| == 0;
    } else {
      SortedSameHead(a, b);
      var ta, tb := a[1..], b[1..];
      assert a == [a[0]] + ta;
      assert b == [b[0]] + tb;
      assert multiset(ta) == multiset(a) - multiset{a[0]};
      assert multiset(tb) == multiset(b) - multiset{b[0]};
      SortedTail(a);
      SortedTail(b);
      SortedUnique(ta, tb);
    }
  }

  /** The entries `filter` accepts, in listing order. */
  function Accepted(entries: seq<Node>, filter: Node -> bool): (r: seq<Node>)
    ensures forall x :: x in r <==> x in entries && filter(x)
  {
    if entries == [] then []
    else
      var last := entries[|entries| - 1];
      var init := entries[..|entries| - 1];
      assert entries == init + [last];
      Accepted(init, filter) + if filter(last) then [last] else []
  }

  lemma AcceptedSnoc(init: seq<Node>, x: Node, filter: Node -> bool)
    ensures Accepted(init + [x], filter) == Accepted(init, filter) + if filter(x) then [x] else []
  {
    assert (init + [x])[..|init|] == init;
  }

  /** `list`'s default filter, used when the filter is null. */
  function AcceptAll(n: Node): bool
  {
    true
  }

  /**
   * `Utils.list(dir, filter)`: nothing unless `dir` is a directory; otherwise
   * the entries the filter accepts (all of them for a null filter), sorted by
   * `FILE_COMPARATOR`: files before directories, each group by name.
   */
  method List(dir: Option<Node>, filter: Option<Node -> bool>) returns (files: seq<Node>)
    ensures dir.None? || dir.value.File? ==> files == []
    ensures dir.Some? && dir.value.Dir? ==>
      var accept: Node -> bool := if filter.Some? then filter.value else AcceptAll;
      && Sorted(files)
      && multiset(files) == multiset(Accepted(dir.value.children, accept))
  {
    if dir.None? || dir.value.File? {
      return [];
    }
    var accept: Node -> bool := if filter.Some? then filter.value else AcceptAll;
    var entries := dir.value.children;
    var theFiles := [];
    var j := 0;
    while j < |entries|
      invariant 0 <= j <= |entries|
      invariant theFiles == Accepted(entries[..j], accept)
    {
      assert entries[..j + 1] == entries[..j] + [entries[j]];
      AcceptedSnoc(entries[..j], entries[j], accept);
      if accept(entries[j]) {
        theFiles := theFiles + [entries[j]];
      }
      j := j + 1;
    }
    assert entries[..j] == entries;
    files := Sort(theFiles);
  }
}
