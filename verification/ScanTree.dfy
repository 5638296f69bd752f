/**
 scanft of lib/file/file.c: a recursive walk over a directory graph in which symbolic links may lead
 anywhere, kept finite by two independent budgets.
 */
module ScanTree {
  import opened Basics

  // ----- File system ------------------------------------------------------------------------

  datatype Entry = Entry(name: string, id: nat)

  /** `Link` carries what path resolution finally leads to, all links followed; None if that fails. */
  datatype Node = Dir(entries: seq<Entry>) | File(content: string) | Link(target: Option<nat>)

  type Fs = map<nat, Node>

  function Resolve(fs: Fs, id: nat): Option<nat> {
    if id !in fs then None
    else match fs[id]
         case Link(t) => if t.Some? && t.value in fs && !fs[t.value].Link? then t else None
         case _ => Some(id)
  }

  predicate IsLink(fs: Fs, id: nat) {
    id in fs && fs[id].Link?
  }

  /** opendir and all of readdir. */
  function OpenDir(fs: Fs, id: nat): Option<seq<Entry>> {
    var r := Resolve(fs, id);
    if r.Some? && fs[r.value].Dir? then Some(fs[r.value].entries) else None
  }

  /** What fopen and fread find in a file. */
  function Read(fs: Fs, id: nat): string {
    var r := Resolve(fs, id);
    if r.Some? && fs[r.value].File? then fs[r.value].content else ""
  }

  datatype Query = Query(filename: string, str: Option<string>)

  predicate Matches(fs: Fs, q: Query, e: Entry) {
    && q.filename <= e.name
    && (q.str.Some? ==> q.str.value <= Read(fs, e.id))
  }

  /** Skipped by the walk: "." and "..", and every other name that starts with a dot. */
  predicate Hidden(name: string) {
    name != "" && name[0] == '.'
  }

  // ----- Termination ------------------------------------------------------------------------

  /** Without links, directories form a finite tree: `h` is the height of a node in it. */
  ghost predicate Tree(fs: Fs, h: nat -> nat) {
    forall d, e :: d in fs && fs[d].Dir? && e in fs[d].entries && !Hidden(e.name) ==> h(e.id) < h(d)
  }

  /** Following links, too, leads downwards only. */
  ghost predicate LinksLeadDown(fs: Fs, h: nat -> nat) {
    forall l, e :: IsLink(fs, l) && OpenDir(fs, l).Some? && e in OpenDir(fs, l).value && !Hidden(e.name) ==> h(e.id) < h(l)
  }

  /** A budget that is not negative bounds the walk; without any, the graph itself has to. */
  ghost predicate Bounded(fs: Fs, h: nat -> nat, maxdepth: int, symdepth: int) {
    Tree(fs, h) && (maxdepth >= 0 || symdepth >= 0 || LinksLeadDown(fs, h))
  }

  /** The leading part of the termination measure: maxdepth if it counts, else symdepth. */
  function Fuel(maxdepth: int, symdepth: int): nat {
    if maxdepth >= 0 then maxdepth else if symdepth >= 0 then symdepth else 0
  }

  /** An upper bound of the heights below `id`, for the entries the walk descends into. */
  ghost function Ceiling(fs: Fs, h: nat -> nat, id: nat, maxdepth: int, symdepth: int): nat {
    if IsLink(fs, id) && maxdepth != 0 && (maxdepth > 0 || symdepth >= 0) && Resolve(fs, id).Some?
    then h(Resolve(fs, id).value) else h(id)
  }

  function Spend(budget: int): int {
    if budget > 0 then budget - 1 else budget
  }

  // ----- The walk, in the order of discovery ------------------------------------------------

  ghost function Visit(fs: Fs, h: nat -> nat, q: Query, path: string, id: nat, maxdepth: int, symdepth: int): seq<string>
    requires Bounded(fs, h, maxdepth, symdepth)
    decreases Fuel(maxdepth, symdepth), h(id)
  {
    if IsLink(fs, id) && symdepth == 0 then []
    else if OpenDir(fs, id).None? then []
    else
      VisitEntries(fs, h, q, path, OpenDir(fs, id).value, maxdepth != 0, Spend(maxdepth),
                   if IsLink(fs, id) then Spend(symdepth) else symdepth, Ceiling(fs, h, id, maxdepth, symdepth))
  }

  ghost function VisitEntries(fs: Fs, h: nat -> nat, q: Query, path: string, es: seq<Entry>, descend: bool,
                              maxdepth: int, symdepth: int, top: nat): seq<string>
    requires Bounded(fs, h, maxdepth, symdepth)
    requires descend ==> forall e :: e in es && !Hidden(e.name) ==> h(e.id) < top
    decreases Fuel(maxdepth, symdepth), top, |es|
  {
    if es == [] then []
    else
      var rest := VisitEntries(fs, h, q, path, es[1..], descend, maxdepth, symdepth, top);
      if Hidden(es[0].name) then rest
      else
        var newpath := path + "/" + es[0].name;
        var found := if Matches(fs, q, es[0]) then [newpath] else [];
        var below := if descend then Visit(fs, h, q, newpath, es[0].id, maxdepth, symdepth) else [];
        found + below + rest
  }

  // ----- What is found, without recursion over the graph ------------------------------------

  /** The path below `root` that the names spell. */
  function PathOf(root: string, names: seq<string>): string
    decreases names
  {
    if names == [] then root else PathOf(root + "/" + names[0], names[1..])
  }

  lemma {:induction false} PathGrows(root: string, names: seq<string>, name: string)
    ensures PathOf(root, []) == root
    ensures PathOf(root, names + [name]) == PathOf(root, names) + "/" + name
    decreases names
  {
    if names == [] {
      assert [name][1..] == [];
      assert PathOf(root, [name]) == PathOf(root + "/" + name, []);
    } else {
      assert (names + [name])[1..] == names[1..] + [name];
      PathGrows(root + "/" + names[0], names[1..], name);
    }
  }

  /** The bytes a path leads to: of the file itself or the one its link leads to. */
  function ContentOf(fs: Fs, id: nat): string {
    if id !in fs then ""
    else match fs[id]
         case File(content) => content
         case Dir(_) => ""
         case Link(t) => if t.Some? && t.value in fs && fs[t.value].File? then fs[t.value].content else ""
  }

  /** The entries of a directory, or of the one a link leads to. */
  function Listing(fs: Fs, id: nat): Option<seq<Entry>> {
    if id !in fs then None
    else match fs[id]
         case Dir(entries) => Some(entries)
         case File(_) => None
         case Link(t) => if t.Some? && t.value in fs && fs[t.value].Dir? then Some(fs[t.value].entries) else None
  }

  /** The system calls see just that. */
  lemma SystemSees(fs: Fs, id: nat)
    ensures Read(fs, id) == ContentOf(fs, id) && OpenDir(fs, id) == Listing(fs, id)
  {}

  predicate StartsWith(s: string, prefix: string) {
    |prefix| <= |s| && s[..|prefix|] == prefix
  }

  function Links(fs: Fs, ids: seq<nat>): nat {
    if ids == [] then 0 else (if ids[0] in fs && fs[ids[0]].Link? then 1 else 0) + Links(fs, ids[1..])
  }

  /** `ids[k]` is opened and has an entry `names[k]` leading to `ids[k + 1]`. The last one is the entry
      found; all before it are directories walked through, within both budgets. */
  ghost predicate Admissible(fs: Fs, q: Query, id: nat, maxdepth: int, symdepth: int, names: seq<string>, ids: seq<nat>) {
    && names != [] && |ids| == |names| + 1 && ids[0] == id
    && (forall k :: 0 <= k < |names| ==>
          && Listing(fs, ids[k]).Some?
          && Entry(names[k], ids[k + 1]) in Listing(fs, ids[k]).value
          && (names[k] != "" ==> names[k][0] != '.'))
    && StartsWith(names[|names| - 1], q.filename)
    && (q.str.Some? ==> StartsWith(ContentOf(fs, ids[|names|]), q.str.value))
    && (maxdepth < 0 || |names| - 1 <= maxdepth)
    && (symdepth < 0 || Links(fs, ids[..|names|]) <= symdepth)
  }

  ghost predicate Findable(fs: Fs, q: Query, root: string, id: nat, maxdepth: int, symdepth: int, path: string) {
    exists names, ids :: Admissible(fs, q, id, maxdepth, symdepth, names, ids) && path == PathOf(root, names)
  }

  function SymLeft(fs: Fs, id: nat, symdepth: int): int {
    if IsLink(fs, id) then Spend(symdepth) else symdepth
  }

  /** One more directory in front. */
  lemma AdmissibleCons(fs: Fs, q: Query, id: nat, maxdepth: int, symdepth: int, e: Entry, names: seq<string>, ids: seq<nat>)
    requires OpenDir(fs, id).Some? && e in OpenDir(fs, id).value && !Hidden(e.name)
    requires maxdepth != 0 && !(IsLink(fs, id) && symdepth == 0)
    requires names != [] && |ids| == |names| + 1 && ids[0] == e.id
    ensures Admissible(fs, q, id, maxdepth, symdepth, [e.name] + names, [id] + ids) <==>
            Admissible(fs, q, e.id, Spend(maxdepth), SymLeft(fs, id, symdepth), names, ids)
  {
    var names', ids' := [e.name] + names, [id] + ids;
    assert ids'[..|names'|] == [id] + ids[..|names|];
    assert e == Entry(e.name, e.id);
    if Admissible(fs, q, id, maxdepth, symdepth, names', ids') {
      forall k | 0 <= k < |names|
        ensures OpenDir(fs, ids[k]).Some? && Entry(names[k], ids[k + 1]) in OpenDir(fs, ids[k]).value && !Hidden(names[k])
      {
        assert names[k] == names'[k + 1] && ids[k] == ids'[k + 1] && ids[k + 1] == ids'[k + 2];
      }
    }
  }

  /** An entry of the directory itself. */
  lemma AdmissibleOne(fs: Fs, q: Query, id: nat, maxdepth: int, symdepth: int, e: Entry)
    requires OpenDir(fs, id).Some? && e in OpenDir(fs, id).value && !Hidden(e.name) && !(IsLink(fs, id) && symdepth == 0)
    ensures Admissible(fs, q, id, maxdepth, symdepth, [e.name], [id, e.id]) <==> Matches(fs, q, e)
  {
    assert [id, e.id][..1] == [id];
    assert Links(fs, [id][1..]) == 0;
  }

  /** Whatever is found is findable. */
  lemma {:induction false} Sound(fs: Fs, h: nat -> nat, q: Query, path: string, id: nat, maxdepth: int, symdepth: int, found: string)
    returns (names: seq<string>, ids: seq<nat>)
    requires Bounded(fs, h, maxdepth, symdepth)
    requires found in Visit(fs, h, q, path, id, maxdepth, symdepth)
    ensures Admissible(fs, q, id, maxdepth, symdepth, names, ids) && found == PathOf(path, names)
    decreases Fuel(maxdepth, symdepth), h(id)
  {
    var es := OpenDir(fs, id).value;
    var e;
    e, names, ids := SoundEntries(fs, h, q, path, es, maxdepth != 0, Spend(maxdepth), SymLeft(fs, id, symdepth),
                                  Ceiling(fs, h, id, maxdepth, symdepth), found);
    if names == [] {
      names, ids := [e.name], [id, e.id];
      assert PathOf(path, names) == PathOf(path + "/" + e.name, names[1..]);
      AdmissibleOne(fs, q, id, maxdepth, symdepth, e);
    } else {
      AdmissibleCons(fs, q, id, maxdepth, symdepth, e, names, ids);
      assert ([e.name] + names)[1..] == names;
      names, ids := [e.name] + names, [id] + ids;
    }
  }

  lemma {:induction false} SoundEntries(fs: Fs, h: nat -> nat, q: Query, path: string, es: seq<Entry>, descend: bool,
                                        maxdepth: int, symdepth: int, top: nat, found: string)
    returns (e: Entry, names: seq<string>, ids: seq<nat>)
    requires Bounded(fs, h, maxdepth, symdepth)
    requires descend ==> forall e :: e in es && !Hidden(e.name) ==> h(e.id) < top
    requires found in VisitEntries(fs, h, q, path, es, descend, maxdepth, symdepth, top)
    ensures e in es && !Hidden(e.name)
    ensures if names == [] then Matches(fs, q, e) && found == path + "/" + e.name
            else && descend && Admissible(fs, q, e.id, maxdepth, symdepth, names, ids)
                 && found == PathOf(path + "/" + e.name, names)
    decreases Fuel(maxdepth, symdepth), top, |es|
  {
    e := es[0];
    var newpath := path + "/" + e.name;
    if !Hidden(e.name) && Matches(fs, q, e) && found == newpath {
      names, ids := [], [];
    } else if !Hidden(e.name) && descend && found in Visit(fs, h, q, newpath, e.id, maxdepth, symdepth) {
      names, ids := Sound(fs, h, q, newpath, e.id, maxdepth, symdepth, found);
    } else {
      e, names, ids := SoundEntries(fs, h, q, path, es[1..], descend, maxdepth, symdepth, top, found);
    }
  }

  /** Whatever is findable is found. */
  lemma {:induction false} Complete(fs: Fs, h: nat -> nat, q: Query, path: string, id: nat, maxdepth: int, symdepth: int,
                                    names: seq<string>, ids: seq<nat>)
    requires Bounded(fs, h, maxdepth, symdepth)
    requires Admissible(fs, q, id, maxdepth, symdepth, names, ids)
    ensures PathOf(path, names) in Visit(fs, h, q, path, id, maxdepth, symdepth)
    decreases |names|
  {
    var e := Entry(names[0], ids[1]);
    var newpath := path + "/" + e.name;
    assert ids[..|names|] == [id] + ids[1..|names|];
    assert !(IsLink(fs, id) && symdepth == 0);
    var m, s, top := Spend(maxdepth), SymLeft(fs, id, symdepth), Ceiling(fs, h, id, maxdepth, symdepth);
    var es := OpenDir(fs, id).value;
    assert e in es;
    if |names| == 1 {
      assert PathOf(path, names) == newpath;
    } else {
      assert [e.name] + names[1..] == names && [id] + ids[1..] == ids;
      AdmissibleCons(fs, q, id, maxdepth, symdepth, e, names[1..], ids[1..]);
      Complete(fs, h, q, newpath, e.id, m, s, names[1..], ids[1..]);
    }
    InEntries(fs, h, q, path, es, maxdepth != 0, m, s, top, e, PathOf(path, names));
  }

  lemma {:induction false} InEntries(fs: Fs, h: nat -> nat, q: Query, path: string, es: seq<Entry>, descend: bool,
                                     maxdepth: int, symdepth: int, top: nat, e: Entry, found: string)
    requires Bounded(fs, h, maxdepth, symdepth)
    requires descend ==> forall e :: e in es && !Hidden(e.name) ==> h(e.id) < top
    requires e in es && !Hidden(e.name)
    requires var newpath := path + "/" + e.name;
             || (Matches(fs, q, e) && found == newpath)
             || (descend && found in Visit(fs, h, q, newpath, e.id, maxdepth, symdepth))
    ensures found in VisitEntries(fs, h, q, path, es, descend, maxdepth, symdepth, top)
  {
    if es[0] != e {
      InEntries(fs, h, q, path, es[1..], descend, maxdepth, symdepth, top, e, found);
    }
  }

  /** The walk finds exactly the findable paths. */
  lemma FindsExactly(fs: Fs, h: nat -> nat, q: Query, root: string, id: nat, maxdepth: int, symdepth: int, path: string)
    requires Bounded(fs, h, maxdepth, symdepth)
    ensures path in Visit(fs, h, q, root, id, maxdepth, symdepth) <==>
            Findable(fs, q, root, id, maxdepth, symdepth, path)
  {
    if path in Visit(fs, h, q, root, id, maxdepth, symdepth) {
      var names, ids := Sound(fs, h, q, root, id, maxdepth, symdepth, path);
    }
    if Findable(fs, q, root, id, maxdepth, symdepth, path) {
      var names, ids :| Admissible(fs, q, id, maxdepth, symdepth, names, ids) && path == PathOf(root, names);
      Complete(fs, h, q, root, id, maxdepth, symdepth, names, ids);
    }
  }

  predicate AtMost(budget: int, larger: int) {
    larger < 0 || 0 <= budget <= larger
  }

  /** Larger budgets find at least as much. */
  lemma LargerBudgets(fs: Fs, h: nat -> nat, q: Query, root: string, id: nat, m: int, s: int, m': int, s': int, path: string)
    requires Bounded(fs, h, m, s) && Bounded(fs, h, m', s') && AtMost(m, m') && AtMost(s, s')
    requires path in Visit(fs, h, q, root, id, m, s)
    ensures path in Visit(fs, h, q, root, id, m', s')
  {
    var names, ids := Sound(fs, h, q, root, id, m, s, path);
    Complete(fs, h, q, root, id, m', s', names, ids);
  }

  /** What is found through a file is found, too, if the file's content is longer. */
  lemma LongerContent(fs: Fs, h: nat -> nat, q: Query, root: string, id: nat, m: int, s: int, path: string, f: nat, more: string)
    requires Bounded(fs, h, m, s) && path in Visit(fs, h, q, root, id, m, s) && f in fs && fs[f].File?
    ensures var fs' := fs[f := File(fs[f].content + more)]; Bounded(fs', h, m, s) && path in Visit(fs', h, q, root, id, m, s)
  {
    var fs' := fs[f := File(fs[f].content + more)];
    forall x ensures OpenDir(fs', x) == OpenDir(fs, x) && Listing(fs', x) == Listing(fs, x) && IsLink(fs', x) == IsLink(fs, x)
      ensures ContentOf(fs, x) <= ContentOf(fs', x) {}
    var names, ids := Sound(fs, h, q, root, id, m, s, path);
    SameLinks(fs, fs', ids[..|names|]);
    assert Admissible(fs', q, id, m, s, names, ids);
    Complete(fs', h, q, root, id, m, s, names, ids);
  }

  lemma {:induction false} SameLinks(fs: Fs, fs': Fs, ids: seq<nat>)
    requires forall x :: IsLink(fs', x) == IsLink(fs, x)
    ensures Links(fs', ids) == Links(fs, ids)
  {
    if ids != [] {
      assert IsLink(fs', ids[0]) == IsLink(fs, ids[0]);
      SameLinks(fs, fs', ids[1..]);
    }
  }

  lemma LastLonger(fs: Fs, q: Query, id: nat, m: int, s: int, names: seq<string>, ids: seq<nat>, more: string)
    requires Admissible(fs, q, id, m, s, names, ids)
    requires var n := |names| - 1; names[n] != "" && Entry(names[n] + more, ids[n + 1]) in Listing(fs, ids[n]).value
    ensures var n := |names| - 1; Admissible(fs, q, id, m, s, names[..n] + [names[n] + more], ids)
  {
    hide Listing, Links, ContentOf;
  }

  /** With an entry of a name that matches, one of a longer name that leads to the same is found. */
  lemma LongerName(fs: Fs, h: nat -> nat, q: Query, root: string, id: nat, m: int, s: int, names: seq<string>, ids: seq<nat>, more: string)
    requires Bounded(fs, h, m, s) && Admissible(fs, q, id, m, s, names, ids)
    requires var n := |names| - 1;
             names[n] != "" && Entry(names[n] + more, ids[n + 1]) in Listing(fs, ids[n]).value
    ensures var n := |names| - 1;
            PathOf(root, names[..n]) + "/" + names[n] + more in Visit(fs, h, q, root, id, m, s)
  {
    var n := |names| - 1;
    var longer := names[..n] + [names[n] + more];
    LastLonger(fs, q, id, m, s, names, ids, more);
    hide Admissible;
    Complete(fs, h, q, root, id, m, s, longer, ids);
    PathGrows(root, names[..n], names[n] + more);
    var path := PathOf(root, names[..n]) + "/";
    assert path + names[n] + more == path + (names[n] + more);
  }

  // ----- The code ---------------------------------------------------------------------------

  lemma ReverseThree<T>(a: seq<T>, b: seq<T>, c: seq<T>, before: seq<T>)
    ensures Reverse(a + b + c) + before == Reverse(c) + (Reverse(b) + (Reverse(a) + before))
  {
    hide Reverse;
    ReverseConcat(a + b, c);
    ReverseConcat(a, b);
  }

  ghost function Hit(fs: Fs, q: Query, path: string, e: Entry): seq<string> {
    if !Hidden(e.name) && Matches(fs, q, e) then [path + "/" + e.name] else []
  }

  ghost function Below(fs: Fs, h: nat -> nat, q: Query, path: string, e: Entry, descend: bool, maxdepth: int, symdepth: int): seq<string>
    requires Bounded(fs, h, maxdepth, symdepth)
  {
    if !Hidden(e.name) && descend then Visit(fs, h, q, path + "/" + e.name, e.id, maxdepth, symdepth) else []
  }

  /** What reading entry `i` adds to a list that grows at its head. */
  lemma EntryAdds(fs: Fs, h: nat -> nat, q: Query, path: string, es: seq<Entry>, i: nat, descend: bool,
                  maxdepth: int, symdepth: int, top: nat, before: seq<string>)
    requires Bounded(fs, h, maxdepth, symdepth) && i < |es|
    requires descend ==> forall e :: e in es && !Hidden(e.name) ==> h(e.id) < top
    ensures Reverse(VisitEntries(fs, h, q, path, es[i..], descend, maxdepth, symdepth, top)) + before ==
            Reverse(VisitEntries(fs, h, q, path, es[i + 1..], descend, maxdepth, symdepth, top))
            + (Reverse(Below(fs, h, q, path, es[i], descend, maxdepth, symdepth)) + (Hit(fs, q, path, es[i]) + before))
  {
    assert es[i..][0] == es[i] && es[i..][1..] == es[i + 1..];
    var hit, below := Hit(fs, q, path, es[i]), Below(fs, h, q, path, es[i], descend, maxdepth, symdepth);
    var rest := VisitEntries(fs, h, q, path, es[i + 1..], descend, maxdepth, symdepth, top);
    assert VisitEntries(fs, h, q, path, es[i..], descend, maxdepth, symdepth, top) == hit + below + rest;
    assert Reverse(hit) == hit;
    ReverseThree(hit, below, rest, before);
  }

  lemma NothingLeft(fs: Fs, h: nat -> nat, q: Query, path: string, descend: bool, maxdepth: int, symdepth: int, top: nat)
    requires Bounded(fs, h, maxdepth, symdepth)
    ensures Reverse(VisitEntries(fs, h, q, path, [], descend, maxdepth, symdepth, top)) == []
  {
  }

  /** The list that grows at its head through `*list = list_insert_before(*list, ...)`. */
  class PathList {
    var paths: seq<string>

    constructor ()
      ensures paths == []
    {
      paths := [];
    }

    method InsertBefore(path: string)
      modifies this
      ensures paths == [path] + old(paths)
    {
      paths := [path] + paths;
    }
  }

  /** Returns whether the C function returns a list and not NULL. */
  method Scanft(list: PathList, fs: Fs, ghost h: nat -> nat, root: string, id: nat, q: Query, maxdepth: int, symdepth: int)
    returns (found: bool)
    requires Bounded(fs, h, maxdepth, symdepth)
    modifies list
    ensures list.paths == Reverse(Visit(fs, h, q, root, id, maxdepth, symdepth)) + old(list.paths)
    ensures found <==> OpenDir(fs, id).Some? && !(IsLink(fs, id) && symdepth == 0) && list.paths != []
    decreases Fuel(maxdepth, symdepth), h(id)
  {
    VisitUnfolds(fs, h, q, root, id, maxdepth, symdepth);
    hide Visit, VisitEntries, Bounded, Fuel, Ceiling, Reverse, Resolve, Hidden;
    if id !in fs {
      assert OpenDir(fs, id).None?;
      return false;   // lstat fails
    }
    var sym, max := symdepth, maxdepth;
    if fs[id].Link? {
      if sym == 0 {
        return false;
      } else if sym > 0 {
        sym := sym - 1;
      }
    }
    var descend := max != 0;
    if max > 0 {
      max := max - 1;
    }
    var dir := OpenDir(fs, id);
    if dir.None? {
      return false;
    }
    assert max == Spend(maxdepth) && sym == SymLeft(fs, id, symdepth);
    ScanEntries(list, fs, h, root, dir.value, q, descend, max, sym, Ceiling(fs, h, id, maxdepth, symdepth));
    return list.paths != [];
  }

  /** The walk from a directory, in terms of its entries, and what goes down on the way. */
  lemma VisitUnfolds(fs: Fs, h: nat -> nat, q: Query, path: string, id: nat, maxdepth: int, symdepth: int)
    requires Bounded(fs, h, maxdepth, symdepth)
    ensures id !in fs ==> OpenDir(fs, id).None?
    ensures if OpenDir(fs, id).None? || (IsLink(fs, id) && symdepth == 0) then Reverse(Visit(fs, h, q, path, id, maxdepth, symdepth)) == []
            else var es, m, s, top := OpenDir(fs, id).value, Spend(maxdepth), SymLeft(fs, id, symdepth), Ceiling(fs, h, id, maxdepth, symdepth);
                 && Bounded(fs, h, m, s)
                 && (maxdepth != 0 ==> forall e :: e in es && !Hidden(e.name) ==> h(e.id) < top)
                 && (Fuel(m, s) < Fuel(maxdepth, symdepth) || (Fuel(m, s) == Fuel(maxdepth, symdepth) && top <= h(id)))
                 && Visit(fs, h, q, path, id, maxdepth, symdepth) == VisitEntries(fs, h, q, path, es, maxdepth != 0, m, s, top)
  {
    hide VisitEntries;
  }

  /** The loop over the entries of a directory. */
  method ScanEntries(list: PathList, fs: Fs, ghost h: nat -> nat, root: string, es: seq<Entry>, q: Query, descend: bool,
                     maxdepth: int, symdepth: int, ghost top: nat)
    requires Bounded(fs, h, maxdepth, symdepth)
    requires descend ==> forall e :: e in es && !Hidden(e.name) ==> h(e.id) < top
    modifies list
    ensures list.paths == Reverse(VisitEntries(fs, h, q, root, es, descend, maxdepth, symdepth, top)) + old(list.paths)
    decreases Fuel(maxdepth, symdepth), top, 1
  {
    hide Visit, VisitEntries, Reverse, Bounded, Below, Hit, Hidden;
    ghost var all := VisitEntries(fs, h, q, root, es, descend, maxdepth, symdepth, top);
    var i := 0;
    assert es[0..] == es;
    NothingLeft(fs, h, q, root, descend, maxdepth, symdepth, top);
    while i < |es|
      invariant 0 <= i <= |es|
      invariant Reverse(VisitEntries(fs, h, q, root, es[i..], descend, maxdepth, symdepth, top)) + list.paths
             == Reverse(all) + old(list.paths)
    {
      EntryAdds(fs, h, q, root, es, i, descend, maxdepth, symdepth, top, list.paths);
      ScanEntry(list, fs, h, root, es[i], q, descend, maxdepth, symdepth, top);
      i := i + 1;
    }
    assert es[|es|..] == [];
  }

  /** The body of the loop: one entry of the directory. */
  method ScanEntry(list: PathList, fs: Fs, ghost h: nat -> nat, root: string, e: Entry, q: Query, descend: bool,
                   maxdepth: int, symdepth: int, ghost top: nat)
    requires Bounded(fs, h, maxdepth, symdepth)
    requires descend && !Hidden(e.name) ==> h(e.id) < top
    modifies list
    ensures list.paths == Reverse(Below(fs, h, q, root, e, descend, maxdepth, symdepth)) + (Hit(fs, q, root, e) + old(list.paths))
    decreases Fuel(maxdepth, symdepth), top, 0
  {
    hide Visit, Bounded, Tree, LinksLeadDown;
    if Hidden(e.name) {
      return;
    }
    var newpath := root + "/" + e.name;
    if q.filename <= e.name {
      if q.str.None? || q.str.value <= Read(fs, e.id) {
        list.InsertBefore(newpath);
      }
    }
    assert list.paths == Hit(fs, q, root, e) + old(list.paths);
    if descend {
      var _ := Scanft(list, fs, h, newpath, e.id, q, maxdepth, symdepth);
    }
  }
}
