/**
 * The pure parts of the command layer (main.cpp): the option loop of
 * `hash-object`, the commit-graph walk of `log` (`log_graphviz`), the
 * reference listing `show_ref`, and the listing branch of `tag`. Printing
 * is modelled as returning the printed lines, one `bytes` per line,
 * without the line terminator.
 */
module Commands {
  import opened Bytes
  import opened Ordering

  // ---------------------------------------------------------------------
  // hash-object: the option loop
  // ---------------------------------------------------------------------

  /** What the option loop decides: print usage, or hash `filename` as `objType`. */
  datatype HashObject = Usage | Hash(objType: bytes, write: bool, filename: bytes)

  /** The argument at `i` stops the option loop: it is neither "-w" nor a "-t" with an argument after it. */
  predicate IsOperand(args: seq<bytes>, i: nat)
    requires i < |args|
  {
    args[i] != Ascii("-w") && !(args[i] == Ascii("-t") && i + 1 < |args|)
  }

  /** The option loop from `index` on, with the type and write flag chosen so far. */
  function Options(args: seq<bytes>, index: nat, objType: bytes, write: bool): HashObject
    decreases |args| - index
  {
    if index >= |args| then Usage
    else if args[index] == Ascii("-w") then Options(args, index + 1, objType, true)
    else if args[index] == Ascii("-t") && index + 1 < |args| then Options(args, index + 2, args[index + 1], write)
    else Hash(objType, write, args[index])
  }

  /** The options start after the program and command names, with type "blob" and no write. */
  function HashObjectArgs(args: seq<bytes>): HashObject
  {
    Options(args, 2, Ascii("blob"), false)
  }

  /** cmd_hash_object's option loop and its choice between hashing and usage. */
  method ParseHashObject(args: seq<bytes>) returns (r: HashObject)
    ensures r == HashObjectArgs(args)
  {
    var objType := Ascii("blob");
    var write := false;
    var index := 2;
    while index < |args|
      invariant Options(args, index, objType, write) == HashObjectArgs(args)
      decreases |args| - index
    {
      if args[index] == Ascii("-w") {
        write := true;
        index := index + 1;
      } else if args[index] == Ascii("-t") && index + 1 < |args| {
        objType := args[index + 1];
        index := index + 2;
      } else {
        break;
      }
    }
    if index < |args| {
      r := Hash(objType, write, args[index]);
    } else {
      r := Usage;
    }
  }

  /** The position the loop moves to from the option at `i`: past "-w", or past "-t" and its argument. */
  function NextOption(args: seq<bytes>, i: nat): (n: nat)
    requires i < |args| && !IsOperand(args, i)
    ensures i < n <= |args|
  {
    if args[i] == Ascii("-w") then i + 1 else i + 2
  }

  /** Started at `index`, the loop reaches position `i`, stepping over options only. */
  predicate Passes(args: seq<bytes>, index: nat, i: nat)
    decreases i - index
  {
    index == i
    || (index < i && index < |args| && !IsOperand(args, index) && Passes(args, NextOption(args, index), i))
  }

  /** The argument at `i` is a "-t" that sets the type to the argument after it. */
  predicate SetsType(args: seq<bytes>, i: nat)
    requires i < |args|
  {
    args[i] == Ascii("-t") && i + 1 < |args|
  }

  /**
   * A file is hashed exactly when the loop reaches an argument that is not
   * an option, and that argument is the file name.
   */
  lemma {:induction false} OptionsFile(args: seq<bytes>, index: nat, objType: bytes, write: bool)
    ensures var r := Options(args, index, objType, write);
            && (r.Hash? <==> exists j | index <= j < |args| :: Passes(args, index, j) && IsOperand(args, j))
            && (forall j | index <= j < |args| && Passes(args, index, j) && IsOperand(args, j) ::
                  r.Hash? && r.filename == args[j])
    decreases |args| - index
  {
    if index < |args| && !IsOperand(args, index) {
      var n := NextOption(args, index);
      if args[index] == Ascii("-w") {
        OptionsFile(args, n, objType, true);
      } else {
        OptionsFile(args, n, args[index + 1], write);
      }
    }
  }

  /** The file is written exactly when write was already chosen or the loop passes a "-w". */
  lemma {:induction false} OptionsWrite(args: seq<bytes>, index: nat, objType: bytes, write: bool)
    ensures var r := Options(args, index, objType, write);
            r.Hash? ==> (r.write <==> write || exists i | index <= i < |args| :: Passes(args, index, i) && args[i] == Ascii("-w"))
    decreases |args| - index
  {
    if index < |args| && !IsOperand(args, index) {
      var n := NextOption(args, index);
      if args[index] == Ascii("-w") {
        OptionsWrite(args, n, objType, true);
      } else {
        OptionsWrite(args, n, args[index + 1], write);
      }
    }
  }

  /**
   * The type is the one chosen before when the loop passes no "-t" with an
   * argument, and otherwise the argument of the last such "-t" it passes.
   */
  lemma {:induction false} OptionsType(args: seq<bytes>, index: nat, objType: bytes, write: bool)
    ensures var r := Options(args, index, objType, write);
            && (r.Hash? && (forall i | index <= i < |args| && Passes(args, index, i) :: !SetsType(args, i)) ==>
                  r.objType == objType)
            && (forall i | index <= i < |args| && Passes(args, index, i) && SetsType(args, i) ::
                  r.Hash? && (forall k | i < k < |args| && Passes(args, index, k) :: !SetsType(args, k)) ==>
                  r.objType == args[i + 1])
    decreases |args| - index
  {
    if index < |args| && !IsOperand(args, index) {
      var n := NextOption(args, index);
      forall i | index < i
        ensures Passes(args, index, i) <==> Passes(args, n, i)
      {
      }
      if args[index] == Ascii("-w") {
        OptionsType(args, n, objType, true);
        assert !SetsType(args, index) by {
          assert Ascii("-w")[1] != Ascii("-t")[1];
        }
      } else {
        OptionsType(args, n, args[index + 1], write);
        assert Passes(args, index, index) && SetsType(args, index);
      }
    }
  }

  /** With only the program and command names there is nothing to hash. */
  lemma HashObjectNoFile(args: seq<bytes>)
    requires |args| <= 2
    ensures HashObjectArgs(args) == Usage
  {
  }

  /** A lone trailing "-t" is taken as the file name, hashed as a blob. */
  lemma HashObjectLoneType(args: seq<bytes>)
    requires |args| == 3 && args[2] == Ascii("-t")
    ensures HashObjectArgs(args) == Hash(Ascii("blob"), false, Ascii("-t"))
  {
    assert args[2] != Ascii("-w") by {
      assert args[2][1] != Ascii("-w")[1];
    }
  }

  // ---------------------------------------------------------------------
  // log_graphviz: depth-first walk over parent links
  // ---------------------------------------------------------------------

  /** What the object store returns for a sha: its format tag and its "parent" header values. */
  datatype Object = Object(format: bytes, parents: seq<bytes>)
  type Store = map<bytes, Object>

  /** The outcome of a walk: the status, the visited set afterwards, and the edges printed. */
  datatype Walk = Walk(status: int, seen: set<bytes>, edges: seq<(bytes, bytes)>)

  predicate IsCommit(store: Store, sha: bytes)
  {
    sha in store && store[sha].format == Ascii("commit")
  }

  /**
   * log_graphviz(sha) with visited set `seen`: nothing for a sha already
   * seen; otherwise the sha is marked seen first, a missing or non-commit
   * object fails with status 1, and a commit walks its parents.
   */
  function Visit(store: Store, sha: bytes, seen: set<bytes>): (r: Walk)
    ensures seen <= r.seen && sha in r.seen
    ensures r.status == 0 || r.status == 1
    decreases store.Keys - seen, 0
  {
    if sha in seen then Walk(0, seen, [])
    else if !IsCommit(store, sha) then Walk(1, seen + {sha}, [])
    else VisitParents(store, sha, store[sha].parents, seen + {sha})
  }

  /**
   * The loop over the parents `ps` of `sha`: print the edge, walk the
   * parent, and stop at the first failure.
   */
  function VisitParents(store: Store, sha: bytes, ps: seq<bytes>, seen: set<bytes>): (r: Walk)
    ensures seen <= r.seen
    ensures r.status == 0 || r.status == 1
    decreases store.Keys - seen, |ps|
  {
    if ps == [] then Walk(0, seen, [])
    else
      var w := Visit(store, ps[0], seen);
      var e := [(sha, ps[0])] + w.edges;
      if w.status != 0 then Walk(w.status, w.seen, e)
      else
        var rest := VisitParents(store, sha, ps[1..], w.seen);
        Walk(rest.status, rest.seen, e + rest.edges)
  }

  /** Every edge printed goes from a commit first visited by this walk to one of its parents. */
  lemma {:induction false} VisitEdges(store: Store, sha: bytes, seen: set<bytes>)
    ensures var r := Visit(store, sha, seen);
            forall e | e in r.edges ::
              e.0 in r.seen && e.0 !in seen && IsCommit(store, e.0) && e.1 in store[e.0].parents
    decreases store.Keys - seen, 0
  {
    if sha !in seen && IsCommit(store, sha) {
      VisitParentsEdges(store, sha, store[sha].parents, seen + {sha});
    }
  }

  lemma {:induction false} VisitParentsEdges(store: Store, sha: bytes, ps: seq<bytes>, seen: set<bytes>)
    ensures var r := VisitParents(store, sha, ps, seen);
            forall e | e in r.edges ::
              (e.0 == sha && e.1 in ps)
              || (e.0 in r.seen && e.0 !in seen && IsCommit(store, e.0) && e.1 in store[e.0].parents)
    decreases store.Keys - seen, |ps|
  {
    if ps != [] {
      var w := Visit(store, ps[0], seen);
      VisitEdges(store, ps[0], seen);
      if w.status == 0 {
        VisitParentsEdges(store, sha, ps[1..], w.seen);
      }
    }
  }

  /** Every commit this walk visited has all of its parents visited, with an edge printed to each. */
  predicate Closed(store: Store, seen: set<bytes>, r: Walk)
  {
    forall s | s in r.seen && s !in seen ::
      IsCommit(store, s) && forall p | p in store[s].parents :: p in r.seen && (s, p) in r.edges
  }

  /** A walk that succeeds has followed every parent link of every commit it visited. */
  lemma {:induction false} VisitComplete(store: Store, sha: bytes, seen: set<bytes>)
    ensures var r := Visit(store, sha, seen);
            r.status == 0 ==> Closed(store, seen, r)
    decreases store.Keys - seen, 0
  {
    if sha !in seen && IsCommit(store, sha) {
      var ps := store[sha].parents;
      VisitParentsComplete(store, sha, ps, seen + {sha});
    }
  }

  lemma {:induction false} VisitParentsComplete(store: Store, sha: bytes, ps: seq<bytes>, seen: set<bytes>)
    ensures var r := VisitParents(store, sha, ps, seen);
            r.status == 0 ==>
              && Closed(store, seen, r)
              && forall p | p in ps :: p in r.seen && (sha, p) in r.edges
    decreases store.Keys - seen, |ps|
  {
    if ps != [] {
      var w := Visit(store, ps[0], seen);
      VisitComplete(store, ps[0], seen);
      if w.status == 0 {
        var rest := VisitParents(store, sha, ps[1..], w.seen);
        VisitParentsComplete(store, sha, ps[1..], w.seen);
        var r := VisitParents(store, sha, ps, seen);
        if r.status == 0 {
          assert r.edges == [(sha, ps[0])] + w.edges + rest.edges;
          forall p | p in ps
            ensures p in r.seen && (sha, p) in r.edges
          {
            if p != ps[0] {
              assert p in ps[1..];
            }
          }
        }
      }
    }
  }

  /** The line printed for an edge: `c_<sha> -> c_<parent>;`. */
  function EdgeLine(e: (bytes, bytes)): bytes
  {
    Ascii("c_") + e.0 + Ascii(" -> c_") + e.1 + Ascii(";")
  }

  function EdgeLines(es: seq<(bytes, bytes)>): (r: seq<bytes>)
    ensures |r| == |es|
    ensures forall i | 0 <= i < |es| :: r[i] == EdgeLine(es[i])
  {
    if es == [] then [] else [EdgeLine(es[0])] + EdgeLines(es[1..])
  }

  lemma EdgeLinesAppend(a: seq<(bytes, bytes)>, b: seq<(bytes, bytes)>)
    ensures EdgeLines(a + b) == EdgeLines(a) + EdgeLines(b)
  {
  }

  /**
   * The walk still to do, `rest`, printing after `lines` completes the
   * walk `goal` begun when `done` had been printed.
   */
  ghost predicate Resumes(goal: Walk, done: seq<bytes>, rest: Walk, lines: seq<bytes>)
  {
    goal.status == rest.status && goal.seen == rest.seen
    && done + EdgeLines(goal.edges) == lines + EdgeLines(rest.edges)
  }

  /** One turn of the loop over the parents, from the `i`-th on. */
  lemma VisitParentsStep(store: Store, sha: bytes, ps: seq<bytes>, i: nat, seen: set<bytes>)
    requires i < |ps|
    ensures var w := Visit(store, ps[i], seen);
            var after := VisitParents(store, sha, ps[i + 1..], w.seen);
            VisitParents(store, sha, ps[i..], seen)
            == if w.status != 0 then Walk(w.status, w.seen, [(sha, ps[i])] + w.edges)
               else Walk(after.status, after.seen, [(sha, ps[i])] + w.edges + after.edges)
  {
    assert ps[i..][1..] == ps[i + 1..];
  }

  /**
   * After printing the edge to `p` and walking `p` (giving `w`), either the
   * walk stops with `w`'s status, or what is left is `after`.
   */
  lemma ResumeStep(goal: Walk, done: seq<bytes>, rest: Walk, lines: seq<bytes>,
                   sha: bytes, p: bytes, w: Walk, after: Walk)
    requires rest == if w.status != 0 then Walk(w.status, w.seen, [(sha, p)] + w.edges)
                     else Walk(after.status, after.seen, [(sha, p)] + w.edges + after.edges)
    requires Resumes(goal, done, rest, lines)
    ensures var now := lines + [EdgeLine((sha, p))] + EdgeLines(w.edges);
            if w.status != 0 then goal.status == w.status && goal.seen == w.seen && done + EdgeLines(goal.edges) == now
            else Resumes(goal, done, after, now)
  {
    var el := [EdgeLine((sha, p))];
    EdgeLinesAppend([(sha, p)], w.edges);
    assert EdgeLines([(sha, p)] + w.edges) == el + EdgeLines(w.edges);
    if w.status == 0 {
      EdgeLinesAppend([(sha, p)] + w.edges, after.edges);
      assert EdgeLines(rest.edges) == el + EdgeLines(w.edges) + EdgeLines(after.edges);
      Regroup(lines, el, EdgeLines(w.edges), EdgeLines(after.edges));
    } else {
      assert EdgeLines(rest.edges) == el + EdgeLines(w.edges);
      assert lines + (el + EdgeLines(w.edges)) == lines + el + EdgeLines(w.edges);
    }
  }

  /** A log run: the object store, the visited set passed by reference, and the lines printed so far. */
  class GraphWalk {
    const store: Store
    var seen: set<bytes>
    var lines: seq<bytes>

    constructor (store: Store)
      ensures this.store == store && seen == {} && lines == []
    {
      this.store := store;
      seen := {};
      lines := [];
    }

    method LogGraphviz(sha: bytes) returns (status: int)
      modifies this
      ensures var w := Visit(store, sha, old(seen));
              status == w.status && seen == w.seen && lines == old(lines) + EdgeLines(w.edges)
      decreases store.Keys - seen
    {
      if sha in seen {
        return 0;
      }
      seen := seen + {sha};
      if sha !in store {
        return 1;
      }
      var commit := store[sha];
      if commit.format != Ascii("commit") {
        return 1;
      }
      var parents := commit.parents;
      if parents == [] {
        return 0;
      }
      ghost var goal := VisitParents(store, sha, parents, seen);
      var i := 0;
      while i < |parents|
        invariant i <= |parents|
        invariant old(seen) + {sha} <= seen
        invariant Resumes(goal, old(lines), VisitParents(store, sha, parents[i..], seen), lines)
      {
        var p := parents[i];
        ghost var w := Visit(store, p, seen);
        ghost var after := VisitParents(store, sha, parents[i + 1..], w.seen);
        VisitParentsStep(store, sha, parents, i, seen);
        ResumeStep(goal, old(lines), VisitParents(store, sha, parents[i..], seen), lines, sha, p, w, after);
        lines := lines + [EdgeLine((sha, p))];
        status := LogGraphviz(p);
        if status != 0 {
          return status;
        }
        i := i + 1;
      }
      assert parents[i..] == [];
      status := 0;
    }
  }

  // ---------------------------------------------------------------------
  // show_ref: flattening the reference tree
  // ---------------------------------------------------------------------

  /** GitRef: a hash, and the references below this one by name. */
  datatype Ref = Ref(hash: bytes, subref: map<bytes, Ref>)

  const SLASH: byte := 0x2F  // '/'

  /** The prefix for the references below `name`: `prefix/name`, or `name` at the top. */
  function SubPrefix(prefix: bytes, name: bytes): bytes
  {
    if |prefix| > 0 then prefix + [SLASH] + name else name
  }

  /** The line for a leaf: optional "hash ", then "prefix/" unless the prefix is empty, then the name. */
  function RefLine(withHash: bool, hash: bytes, prefix: bytes, name: bytes): bytes
  {
    (if withHash then hash + [SP] else []) + (if |prefix| > 0 then prefix + [SLASH] else []) + name
  }

  lemma SortedNamesIn(m: map<bytes, Ref>)
    ensures forall i | 0 <= i < |SortedBytes(m.Keys)| :: SortedBytes(m.Keys)[i] in m
  {
    var names := SortedBytes(m.Keys);
    SortedBytesSpec(m.Keys);
    forall i | 0 <= i < |names|
      ensures names[i] in m
    {
      assert names[i] in names;
    }
  }

  /** show_ref over the references below `node`, in ascending name order. */
  ghost function ShowRefs(node: Ref, withHash: bool, prefix: bytes): seq<bytes>
    decreases node, 1
  {
    SortedNamesIn(node.subref);
    ShowNames(node, SortedBytes(node.subref.Keys), withHash, prefix)
  }

  /** The lines for the reference `child` named `name`: its own line for a leaf, else those below it. */
  ghost function ShowEntry(child: Ref, name: bytes, withHash: bool, prefix: bytes): seq<bytes>
    decreases child, 2
  {
    if child.subref != map[] then ShowRefs(child, withHash, SubPrefix(prefix, name))
    else [RefLine(withHash, child.hash, prefix, name)]
  }

  /** The lines for the references below `node` named in `names`, in that order. */
  ghost function ShowNames(node: Ref, names: seq<bytes>, withHash: bool, prefix: bytes): seq<bytes>
    requires forall i | 0 <= i < |names| :: names[i] in node.subref
    decreases node, 0, |names|
  {
    if names == [] then []
    else
      var init, name := names[..|names| - 1], names[|names| - 1];
      ShowNames(node, init, withHash, prefix) + ShowEntry(node.subref[name], name, withHash, prefix)
  }

  /**
   * show_ref: `node` is the `GitRef` whose `subref` map is being listed
   * (it only serves to show that the recursion ends); always status 0.
   */
  method ShowRef(refs: map<bytes, Ref>, withHash: bool, prefix: bytes, ghost node: Ref)
    returns (status: int, lines: seq<bytes>)
    requires node.subref == refs
    ensures status == 0 && lines == ShowRefs(node, withHash, prefix)
    decreases node
  {
    var names := SortBytes(refs.Keys);
    SortedNamesIn(refs);
    lines := [];
    var i := 0;
    while i < |names|
      invariant i <= |names|
      invariant lines == ShowNames(node, names[..i], withHash, prefix)
    {
      var name := names[i];
      var child := refs[name];
      ShowNamesStep(node, names, i, withHash, prefix);
      ghost var entry := ShowEntry(child, name, withHash, prefix);
      if child.subref != map[] {
        var prefix2 := prefix;
        if |prefix2| > 0 {
          prefix2 := prefix2 + [SLASH];
        }
        prefix2 := prefix2 + name;
        assert prefix2 == SubPrefix(prefix, name);
        var _, below := ShowRef(child.subref, withHash, prefix2, child);
        assert below == entry;
        lines := lines + below;
      } else {
        // the three pieces written to the output for a leaf
        var hashPart: bytes := if withHash then child.hash + [SP] else [];
        var prefixPart: bytes := if |prefix| > 0 then prefix + [SLASH] else [];
        var line := hashPart + prefixPart + name;
        lines := lines + [line];
      }
      i := i + 1;
    }
    assert names[..i] == names;
    status := 0;
  }

  lemma ShowNamesStep(node: Ref, names: seq<bytes>, i: nat, withHash: bool, prefix: bytes)
    requires i < |names| && forall j | 0 <= j < |names| :: names[j] in node.subref
    ensures ShowNames(node, names[..i + 1], withHash, prefix)
            == ShowNames(node, names[..i], withHash, prefix) + ShowEntry(node.subref[names[i]], names[i], withHash, prefix)
  {
    assert names[..i + 1][..i] == names[..i];
  }

  /** Without hashes, every line listed under a non-empty prefix starts with "prefix/". */
  lemma {:induction false} ShowRefsPrefixed(node: Ref, prefix: bytes)
    requires |prefix| > 0
    ensures forall l | l in ShowRefs(node, false, prefix) :: StartsWith(l, prefix + [SLASH])
    decreases node, 1
  {
    SortedNamesIn(node.subref);
    ShowNamesPrefixed(node, SortedBytes(node.subref.Keys), prefix);
  }

  lemma {:induction false} ShowNamesPrefixed(node: Ref, names: seq<bytes>, prefix: bytes)
    requires |prefix| > 0
    requires forall i | 0 <= i < |names| :: names[i] in node.subref
    ensures forall l | l in ShowNames(node, names, false, prefix) :: StartsWith(l, prefix + [SLASH])
    decreases node, 0, |names|
  {
    if names != [] {
      var init, name := names[..|names| - 1], names[|names| - 1];
      var child := node.subref[name];
      ShowNamesPrefixed(node, init, prefix);
      var p := prefix + [SLASH];
      if child.subref != map[] {
        var sub := SubPrefix(prefix, name);
        ShowRefsPrefixed(child, sub);
        forall l | l in ShowRefs(child, false, sub)
          ensures StartsWith(l, p)
        {
          StartsWithTrans(l, sub + [SLASH], p);
        }
      } else {
        var l := RefLine(false, child.hash, prefix, name);
        assert l == p + name;
      }
    }
  }

  lemma StartsWithTrans(s: bytes, q: bytes, p: bytes)
    requires StartsWith(s, q) && StartsWith(q, p)
    ensures StartsWith(s, p)
  {
    assert s[..|p|] == q[..|p|];
  }

  /** A node whose references are all leaves lists, without hashes or prefix, exactly its names in ascending order. */
  lemma ShowRefsFlat(node: Ref)
    requires forall name | name in node.subref :: node.subref[name].subref == map[]
    ensures ShowRefs(node, false, []) == SortedBytes(node.subref.Keys)
  {
    SortedNamesIn(node.subref);
    ShowNamesFlat(node, SortedBytes(node.subref.Keys));
  }

  lemma {:induction false} ShowNamesFlat(node: Ref, names: seq<bytes>)
    requires forall i | 0 <= i < |names| :: names[i] in node.subref
    requires forall name | name in node.subref :: node.subref[name].subref == map[]
    ensures ShowNames(node, names, false, []) == names
    decreases |names|
  {
    if names != [] {
      var init, name := names[..|names| - 1], names[|names| - 1];
      ShowNamesFlat(node, init);
      assert RefLine(false, node.subref[name].hash, [], name) == name;
      assert names == init + [name];
    }
  }

  // ---------------------------------------------------------------------
  // tag: listing the tags
  // ---------------------------------------------------------------------

  const TAGS_PREFIX: bytes := Ascii("refs/tags/")

  /** `name.find("refs/tags/") == 0`: the name starts with "refs/tags/". */
  lemma FoundAtStart(name: bytes)
    ensures FindSeq(name, TAGS_PREFIX, 0) == Some(0) <==> StartsWith(name, TAGS_PREFIX)
  {
    if StartsWith(name, TAGS_PREFIX) {
      assert name[0..|TAGS_PREFIX|] == name[..|TAGS_PREFIX|];
    }
  }

  /** The tag names printed for the packed references, in their order. */
  function PackedTagNames(packed: seq<(bytes, bytes)>): seq<bytes>
  {
    if packed == [] then []
    else
      var init, name := packed[..|packed| - 1], packed[|packed| - 1].0;
      PackedTagNames(init) + (if FindSeq(name, TAGS_PREFIX, 0) == Some(0) then [name[10..]] else [])
  }

  /**
   * `names` lists, one for one and in order, the packed entries at
   * positions `idx`, with "refs/tags/" stripped, and `idx` holds every
   * entry under "refs/tags/" and no other.
   */
  ghost predicate Selects(packed: seq<(bytes, bytes)>, idx: seq<nat>, names: seq<bytes>)
  {
    && |idx| == |names|
    && (forall k | 0 <= k < |idx| ::
          idx[k] < |packed| && StartsWith(packed[idx[k]].0, TAGS_PREFIX) && names[k] == packed[idx[k]].0[|TAGS_PREFIX|..])
    && (forall k, l | 0 <= k < l < |idx| :: idx[k] < idx[l])
    && (forall i | 0 <= i < |packed| && StartsWith(packed[i].0, TAGS_PREFIX) :: i in idx)
  }

  /**
   * The listed names are the packed names under "refs/tags/", one per such
   * entry, in the entries' order, with those 10 bytes stripped.
   */
  lemma {:induction false} PackedTagNamesOrder(packed: seq<(bytes, bytes)>)
    ensures exists idx: seq<nat> :: Selects(packed, idx, PackedTagNames(packed))
    decreases |packed|
  {
    if packed == [] {
      var none: seq<nat> := [];
      assert Selects(packed, none, PackedTagNames(packed));
    } else {
      var init, name := packed[..|packed| - 1], packed[|packed| - 1].0;
      PackedTagNamesOrder(init);
      var idx0: seq<nat> :| Selects(init, idx0, PackedTagNames(init));
      FoundAtStart(name);
      if StartsWith(name, TAGS_PREFIX) {
        assert PackedTagNames(packed) == PackedTagNames(init) + [name[|TAGS_PREFIX|..]];
        SelectsKeep(packed, idx0, PackedTagNames(init));
        assert Selects(packed, idx0 + [|packed| - 1], PackedTagNames(packed));
      } else {
        assert PackedTagNames(packed) == PackedTagNames(init);
        SelectsSkip(packed, idx0, PackedTagNames(init));
        assert Selects(packed, idx0, PackedTagNames(packed));
      }
    }
  }

  /** A last entry under "refs/tags/" adds its position and its stripped name. */
  lemma SelectsKeep(packed: seq<(bytes, bytes)>, idx: seq<nat>, names: seq<bytes>)
    requires packed != [] && StartsWith(packed[|packed| - 1].0, TAGS_PREFIX)
    requires Selects(packed[..|packed| - 1], idx, names)
    ensures Selects(packed, idx + [|packed| - 1], names + [packed[|packed| - 1].0[|TAGS_PREFIX|..]])
  {
    var init, last := packed[..|packed| - 1], |packed| - 1;
    var idx', names' := idx + [last], names + [packed[last].0[|TAGS_PREFIX|..]];
    forall k | 0 <= k < |idx|
      ensures idx'[k] == idx[k] < last && names'[k] == names[k] && packed[idx[k]] == init[idx[k]]
    {
    }
    forall i | 0 <= i < |packed| && StartsWith(packed[i].0, TAGS_PREFIX)
      ensures i in idx'
    {
      if i < last {
        assert packed[i] == init[i];
      }
    }
  }

  /** A last entry elsewhere leaves positions and names as they were. */
  lemma SelectsSkip(packed: seq<(bytes, bytes)>, idx: seq<nat>, names: seq<bytes>)
    requires packed != [] && !StartsWith(packed[|packed| - 1].0, TAGS_PREFIX)
    requires Selects(packed[..|packed| - 1], idx, names)
    ensures Selects(packed, idx, names)
  {
    var init, last := packed[..|packed| - 1], |packed| - 1;
    forall k | 0 <= k < |idx|
      ensures idx[k] < last && packed[idx[k]] == init[idx[k]]
    {
    }
    forall i | 0 <= i < |packed| && StartsWith(packed[i].0, TAGS_PREFIX)
      ensures i in idx
    {
      assert i < last;
      assert packed[i] == init[i];
    }
  }

  /** What `tag` with no tag name to create prints: the tags in the reference tree, then the packed ones. */
  ghost function TagListing(args: seq<bytes>, refs: map<bytes, Ref>, packed: seq<(bytes, bytes)>): seq<bytes>
  {
    if |args| > 2 then []
    else
      (if Ascii("tags") in refs then ShowRefs(refs[Ascii("tags")], false, []) else [])
      + PackedTagNames(packed)
  }

  /**
   * cmd_tag: creating a tag is not implemented and prints nothing; listing
   * shows the "tags" subtree without hashes or prefix, then every packed
   * reference under "refs/tags/" with that prefix stripped.
   */
  method CmdTag(args: seq<bytes>, refs: map<bytes, Ref>, packed: seq<(bytes, bytes)>)
    returns (status: int, lines: seq<bytes>)
    ensures status == 0 && lines == TagListing(args, refs, packed)
  {
    status := 0;
    lines := [];
    if |args| <= 2 {
      if Ascii("tags") in refs {
        var tags := refs[Ascii("tags")];
        var _, shown := ShowRef(tags.subref, false, [], tags);
        lines := shown;
      }
      ghost var listed := lines;
      var i := 0;
      while i < |packed|
        invariant i <= |packed|
        invariant lines == listed + PackedTagNames(packed[..i])
      {
        var name := packed[i].0;
        assert packed[..i + 1][..i] == packed[..i];
        if FindSeq(name, TAGS_PREFIX, 0) == Some(0) {
          var tag := name[10..];
          lines := lines + [tag];
        }
        i := i + 1;
      }
      assert packed[..i] == packed;
    }
  }
}
