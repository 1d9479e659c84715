/** The option tree `yacl::map`: a recursive namespace in which indexing by
    name creates a child on first use, and every named node owns exactly one
    option record that `req` replaces.

    The C++ class is mutable and hands out references into itself; here a
    tree is an immutable value, a node is reached by its key path from the
    root, and each operation returns the updated tree. An operation that
    throws `std::domain_error` returns `Failure` and leaves the tree as it
    was. */
module OptionTree {
  import opened Wrappers

  /** `option_abstract::option_type`. */
  datatype Kind = Optional | Required

  /** The concrete `option<T>` subclass a `req` overload allocates: plain
      string-stream conversion, or conversion followed by a lambda, or an
      object filter. */
  datatype Filter = StreamOnly | LambdaFilter | ObjectFilter

  /** The record behind a node's `single_option`. The one `map(s)` allocates
      is a value-initialised `option_methods`: empty strings, the kind
      zero-initialised to `OPTIONAL` and no conversion stage (`None`). */
  datatype Record = Record(
    help: string,
    longName: string,
    shortName: string,
    kind: Kind,
    filter: Option<Filter>)

  const FreshRecord := Record("", "", "", Optional, None)

  /** One node: its name (`description`), its named children
      (`multi_options`) and its record, absent only where the C++ `shared_ptr` is
      null. */
  datatype Node = Node(name: string, children: map<string, Node>, record: Option<Record>)

  /** `map()`: the unnamed root, whose `single_option` is null. */
  const Root := Node("", map[], None)

  /** `map(s)`: a node named `s` with no children, owning a fresh record whose
      help text is empty and whose kind is `OPTIONAL`; it satisfies the class
      invariant. */
  function Named(s: string): (r: Node)
    ensures r.name == s && r.children == map[]
    ensures r.record.Some? && r.record.value.help == "" && r.record.value.kind == Optional
    ensures Wf(r)
  {
    Node(s, map[], Some(FreshRecord))
  }

  /** The exception `check_condition` throws. */
  const MissingName := DomainError("description parameter missing")

  /** The part of the class invariant that `help` and `get<T>` rely on: the
      only constructor that leaves `single_option` null also leaves the
      name empty. */
  predicate HasRecordIfNamed(n: Node) {
    n.name != "" ==> n.record.Some?
  }

  /** The class invariant both constructors establish (`RootWf`, `Named`) and
      every operation keeps: records where needed, and each child named by
      its own key. */
  predicate Wf(n: Node) {
    && HasRecordIfNamed(n)
    && forall k :: k in n.children ==> n.children[k].name == k && Wf(n.children[k])
  }

  // ---------------------------------------------------------------------
  // Operations on one node
  // ---------------------------------------------------------------------

  /** `check_condition`: every declaration and retrieval first rejects an
      unnamed node. */
  function CheckCondition(n: Node): (r: Outcome<Error>)
    ensures r.Fail? <==> n.name == ""
    ensures r.Fail? ==> r.error == MissingName
  {
    if n.name == "" then Fail(MissingName) else Pass
  }

  /** `operator[](const std::string&)`: return the child stored under `key`,
      creating a fresh one named `key` if there is none. Returns the updated
      parent and the child. Never fails, not even for an empty key. */
  function Index(n: Node, key: string): (r: (Node, Node))
    ensures key in r.0.children && r.0.children[key] == r.1
    ensures key in n.children ==> r.0 == n && r.1 == n.children[key]
    ensures key !in n.children ==> r.1.name == key && r.1.children == map[] && r.1.record == Some(FreshRecord)
    ensures r.0.name == n.name && r.0.record == n.record
    ensures r.0.children.Keys == n.children.Keys + {key}
    ensures forall k :: k in n.children ==> r.0.children[k] == n.children[k]
  {
    if key in n.children then (n, n.children[key])
    else
      var c := Named(key);
      (n.(children := n.children[key := c]), c)
  }

  /** `operator[](unsigned int)`: positional children are never created; the
      node itself comes back unchanged. */
  function IndexPosition(n: Node, pos: nat): (r: Node)
    requires pos < 0x1_0000_0000
    ensures r == n
  {
    n
  }

  /** `operator[](all)`: the node itself, unchanged. */
  function IndexAll(n: Node): (r: Node)
    ensures r == n
  {
    n
  }

  /** `operator=(std::vector<std::string>)`: the values are discarded and the
      node itself comes back unchanged. */
  function Assign(n: Node, values: seq<string>): (r: Node)
    ensures r == n
  {
    n
  }

  /** `size()`: the number of distinct names under which a child is stored. */
  function Size(n: Node): (r: nat)
    ensures r == |n.children.Keys|
  {
    |n.children|
  }

  /** Every `req` overload: after the name check, install a new required
      record whose long name is the node's own name. Children are kept. */
  function Req(n: Node, shortName: string, help: string, filter: Filter): (r: Result<Node, Error>)
    ensures r.Failure? <==> n.name == ""
    ensures r.Failure? ==> r.error == MissingName
    ensures r.Success? ==> r.value.name == n.name && r.value.children == n.children
    ensures r.Success? ==> r.value.record.Some?
    ensures r.Success? ==> var rec := r.value.record.value;
      rec.help == help && rec.shortName == shortName && rec.longName == n.name
      && rec.kind == Required && rec.filter == Some(filter)
  {
    match CheckCondition(n)
    case Fail(e) => Failure(e)
    case Pass => Success(n.(record := Some(Record(help, n.name, shortName, Required, Some(filter)))))
  }

  /** Every `opt` overload: the name check and nothing else, whatever the
      default value and filter; the node is never changed. */
  function Opt<T>(n: Node, shortName: string, help: string, default: T): (r: Outcome<Error>)
    ensures r.Fail? <==> n.name == ""
    ensures r.Fail? ==> r.error == MissingName
  {
    CheckCondition(n)
  }

  /** `help()`: after the name check, the help text of the node's record. */
  function Help(n: Node): (r: Result<string, Error>)
    requires HasRecordIfNamed(n)
    ensures r.Failure? <==> n.name == ""
    ensures r.Failure? ==> r.error == MissingName
    ensures r.Success? ==> n.record.Some? && r.value == n.record.value.help
  {
    match CheckCondition(n)
    case Fail(e) => Failure(e)
    case Pass => Success(n.record.value.help)
  }

  /** The untyped `get()`: after the name check, always the empty string. */
  function GetText(n: Node): (r: Result<string, Error>)
    ensures r.Failure? <==> n.name == ""
    ensures r.Failure? ==> r.error == MissingName
    ensures r.Success? ==> r.value == ""
  {
    match CheckCondition(n)
    case Fail(e) => Failure(e)
    case Pass => Success("")
  }

  /** `get<T>()`: after the name check, whatever the record's conversion
      makes of its data. The `dynamic_cast` and the conversion are not part
      of this model; `retrieve` stands for them. */
  function GetTyped<T>(n: Node, retrieve: Record -> T): (r: Result<T, Error>)
    requires HasRecordIfNamed(n)
    ensures r.Failure? <==> n.name == ""
    ensures r.Failure? ==> r.error == MissingName
    ensures r.Success? ==> n.record.Some? && r.value == retrieve(n.record.value)
  {
    match CheckCondition(n)
    case Fail(e) => Failure(e)
    case Pass => Success(retrieve(n.record.value))
  }

  // ---------------------------------------------------------------------
  // Key paths
  // ---------------------------------------------------------------------

  /** The node reached from `n` through the children named by `path`. */
  function At(n: Node, path: seq<string>): Option<Node>
    decreases |path|
  {
    if path == [] then Some(n)
    else if path[0] in n.children then At(n.children[path[0]], path[1..])
    else None
  }

  /** Evaluating the chain `n[path[0]][path[1]]…`: each step returns the
      existing child or creates it. The result is the updated tree, in which
      the path now leads somewhere; a path that already existed changes
      nothing. */
  function Touch(n: Node, path: seq<string>): (r: Node)
    ensures r.name == n.name && r.record == n.record
    ensures path != [] ==> r.children.Keys == n.children.Keys + {path[0]}
    ensures At(r, path).Some?
    ensures At(n, path).Some? ==> r == n
    ensures path != [] ==> forall k :: k in n.children && k != path[0] ==> r.children[k] == n.children[k]
    decreases |path|
  {
    if path == [] then n
    else
      var (m, c) := Index(n, path[0]);
      m.(children := m.children[path[0] := Touch(c, path[1..])])
  }

  /** The tree with the node at `path` replaced by `sub`. */
  function Put(n: Node, path: seq<string>, sub: Node): (r: Node)
    requires At(n, path).Some?
    ensures At(r, path) == Some(sub)
    ensures path != [] ==> r.name == n.name && r.record == n.record && r.children.Keys == n.children.Keys
    decreases |path|
  {
    if path == [] then sub
    else n.(children := n.children[path[0] := Put(n.children[path[0]], path[1..], sub)])
  }

  /** `req` on the node a key path leads to. */
  function ReqAt(n: Node, path: seq<string>, shortName: string, help: string, filter: Filter): (r: Result<Node, Error>)
    requires At(n, path).Some?
    ensures r.Failure? <==> At(n, path).value.name == ""
    ensures r.Failure? ==> r.error == MissingName
    ensures r.Success? ==> At(r.value, path) == Some(Req(At(n, path).value, shortName, help, filter).value)
  {
    match Req(At(n, path).value, shortName, help, filter)
    case Failure(e) => Failure(e)
    case Success(m) => Success(Put(n, path, m))
  }

  /** Evaluating `n[keys[0]]`, `n[keys[1]]`, … one after the other on the same
      node. */
  function IndexEach(n: Node, keys: seq<string>): Node
    decreases |keys|
  {
    if keys == [] then n else IndexEach(Index(n, keys[0]).0, keys[1..])
  }

  // ---------------------------------------------------------------------
  // Indexing by name
  // ---------------------------------------------------------------------

  /** Indexing the same name again returns the same child and changes
      nothing more. */
  lemma IndexIdempotent(n: Node, key: string)
    ensures Index(Index(n, key).0, key) == Index(n, key)
  {
  }

  /** Indexing a sequence of names adds exactly those names as children and
      leaves every existing child, the name and the record as they were. */
  lemma {:induction false} IndexEachAdds(n: Node, keys: seq<string>)
    ensures IndexEach(n, keys).children.Keys == n.children.Keys + set k | k in keys
    ensures IndexEach(n, keys).name == n.name && IndexEach(n, keys).record == n.record
    ensures forall k :: k in n.children ==> IndexEach(n, keys).children[k] == n.children[k]
    decreases |keys|
  {
    if keys != [] {
      var m := Index(n, keys[0]).0;
      IndexEachAdds(m, keys[1..]);
      assert (set k | k in keys) == {keys[0]} + set k | k in keys[1..];
    }
  }

  /** `size()` of a root after indexing some names is the number of distinct
      names indexed: indexing a name twice does not count it twice. */
  lemma SizeCountsDistinctNames(keys: seq<string>)
    ensures Size(IndexEach(Root, keys)) == |set k | k in keys|
  {
    var t := IndexEach(Root, keys);
    IndexEachAdds(Root, keys);
    assert |t.children| == |t.children.Keys|;
  }

  /** A name that a run of index calls creates holds a fresh `map(s)`. */
  lemma {:induction false} IndexEachCreatesFresh(n: Node, keys: seq<string>, k: string)
    requires k in keys && k !in n.children
    ensures k in IndexEach(n, keys).children && IndexEach(n, keys).children[k] == Named(k)
    decreases |keys|
  {
    var m := Index(n, keys[0]).0;
    IndexEachAdds(m, keys[1..]);
    if keys[0] != k {
      IndexEachCreatesFresh(m, keys[1..], k);
    }
  }

  /** The unnamed root satisfies the class invariant. */
  lemma RootWf()
    ensures Wf(Root)
  {
  }

  /** A run of index calls keeps the class invariant. */
  lemma {:induction false} IndexEachKeepsWf(n: Node, keys: seq<string>)
    requires Wf(n)
    ensures Wf(IndexEach(n, keys))
    decreases |keys|
  {
    if keys != [] {
      IndexKeepsWf(n, keys[0]);
      IndexEachKeepsWf(Index(n, keys[0]).0, keys[1..]);
    }
  }

  /** A freshly created named child answers `help()` with the empty string
      instead of failing. */
  lemma FreshChildHelpIsEmpty(n: Node, key: string)
    requires key !in n.children && key != ""
    ensures Help(Index(n, key).1) == Success("")
  {
  }

  /** Indexing keeps the class invariant, and the child it returns is named
      by its key. */
  lemma IndexKeepsWf(n: Node, key: string)
    requires Wf(n)
    ensures Wf(Index(n, key).0) && Wf(Index(n, key).1)
    ensures Index(n, key).1.name == key
  {
  }

  // ---------------------------------------------------------------------
  // Declarations and retrievals on one node
  // ---------------------------------------------------------------------

  /** On an unnamed node every declaration and retrieval throws the same
      domain error; on a named one none of them does. */
  lemma NameCheckGuardsEverything<T, U>(n: Node, shortName: string, help: string, filter: Filter,
                                         default: T, retrieve: Record -> U)
    requires HasRecordIfNamed(n)
    ensures n.name == "" ==>
      && Help(n) == Failure(MissingName) && GetText(n) == Failure(MissingName)
      && GetTyped(n, retrieve) == Failure(MissingName)
      && Req(n, shortName, help, filter) == Failure(MissingName)
      && Opt(n, shortName, help, default) == Fail(MissingName)
    ensures n.name != "" ==>
      && Help(n).Success? && GetText(n).Success? && GetTyped(n, retrieve).Success?
      && Req(n, shortName, help, filter).Success? && Opt(n, shortName, help, default).Pass?
  {
  }

  /** A second `req` on the same node replaces the first one completely:
      the last declaration wins. */
  lemma ReqLastWriteWins(n: Node, short1: string, help1: string, filter1: Filter,
                         short2: string, help2: string, filter2: Filter)
    requires n.name != ""
    ensures Req(Req(n, short1, help1, filter1).value, short2, help2, filter2)
         == Req(n, short2, help2, filter2)
  {
  }

  /** After `req`, `help()` returns the help text just declared. */
  lemma HelpAfterReq(n: Node, shortName: string, help: string, filter: Filter)
    requires n.name != ""
    ensures Help(Req(n, shortName, help, filter).value) == Success(help)
  {
  }

  lemma ReqKeepsWf(n: Node, shortName: string, help: string, filter: Filter)
    requires Wf(n) && n.name != ""
    ensures Wf(Req(n, shortName, help, filter).value)
  {
  }

  // ---------------------------------------------------------------------
  // Key paths
  // ---------------------------------------------------------------------

  /** Following `p + s` is following `p`, then `s`. */
  lemma {:induction false} AtAppend(n: Node, p: seq<string>, s: seq<string>)
    ensures At(n, p + s) == if At(n, p).Some? then At(At(n, p).value, s) else None
    decreases |p|
  {
    if p != [] {
      assert (p + s)[0] == p[0] && (p + s)[1..] == p[1..] + s;
      if p[0] in n.children {
        AtAppend(n.children[p[0]], p[1..], s);
      }
    } else {
      assert p + s == s;
    }
  }

  /** In a well-formed tree every node reached is well formed, and a node
      reached by a non-empty path is named by the path's last key. */
  lemma {:induction false} AtWf(n: Node, p: seq<string>)
    requires Wf(n) && At(n, p).Some?
    ensures Wf(At(n, p).value)
    ensures p != [] ==> At(n, p).value.name == p[|p| - 1]
    decreases |p|
  {
    if p != [] {
      AtWf(n.children[p[0]], p[1..]);
      if |p| == 1 {
        assert p[1..] == [];
      } else {
        assert p[1..][|p[1..]| - 1] == p[|p| - 1];
      }
    }
  }

  /** Evaluating an index chain keeps the class invariant. */
  lemma {:induction false} TouchKeepsWf(n: Node, p: seq<string>)
    requires Wf(n)
    ensures Wf(Touch(n, p))
    decreases |p|
  {
    if p != [] {
      var (m, c) := Index(n, p[0]);
      IndexKeepsWf(n, p[0]);
      TouchKeepsWf(c, p[1..]);
      var r := Touch(n, p);
      forall k | k in r.children ensures r.children[k].name == k && Wf(r.children[k]) {
        if k != p[0] { assert r.children[k] == m.children[k]; }
      }
    }
  }

  /** Evaluating the same index chain twice is the same as once. */
  lemma TouchIdempotent(n: Node, p: seq<string>)
    ensures Touch(Touch(n, p), p) == Touch(n, p)
  {
  }

  /** An index chain leaves every node off its path untouched. */
  lemma {:induction false} TouchLeavesOthers(n: Node, p: seq<string>, q: seq<string>)
    requires !(q <= p) && !(p <= q)
    ensures At(Touch(n, p), q) == At(n, q)
    decreases |p|
  {
    var r := Touch(n, p);
    if q[0] != p[0] {
      if q[0] in n.children {
        assert r.children[q[0]] == n.children[q[0]];
      }
    } else {
      var c := Index(n, p[0]).1;
      assert !(q[1..] <= p[1..]) && !(p[1..] <= q[1..]);
      TouchLeavesOthers(c, p[1..], q[1..]);
      if p[0] !in n.children {
        assert At(c, q[1..]) == None;
      }
    }
  }

  /** A path that did not lead anywhere leads, after the index chain, to a
      fresh `map(s)` named by its last key. */
  lemma {:induction false} TouchCreatesFresh(n: Node, p: seq<string>)
    requires p != [] && At(n, p).None?
    ensures At(Touch(n, p), p) == Some(Named(p[|p| - 1]))
    decreases |p|
  {
    var (m, c) := Index(n, p[0]);
    var r := Touch(n, p);
    assert r.children[p[0]] == Touch(c, p[1..]);
    if |p| == 1 {
      assert p[1..] == [];
    } else {
      TouchCreatesFresh(c, p[1..]);
      assert p[1..][|p[1..]| - 1] == p[|p| - 1];
    }
  }

  /** An index chain keeps the name and record of every existing node on its
      path: `operator[]` only adds children. */
  lemma {:induction false} TouchKeepsAncestors(n: Node, p: seq<string>, q: seq<string>)
    requires q < p && At(n, q).Some?
    ensures At(Touch(n, p), q).Some?
    ensures At(Touch(n, p), q).value.name == At(n, q).value.name
    ensures At(Touch(n, p), q).value.record == At(n, q).value.record
    decreases |p|
  {
    if q != [] {
      assert q[0] == p[0] && q[1..] < p[1..];
      var r := Touch(n, p);
      assert r.children[p[0]] == Touch(n.children[p[0]], p[1..]);
      TouchKeepsAncestors(n.children[p[0]], p[1..], q[1..]);
    }
  }

  /** Every node an index chain creates along its path, not only the last
      one, is a fresh `map(s)` record named by its key. */
  lemma {:induction false} TouchCreatesFreshAlong(n: Node, p: seq<string>, q: seq<string>)
    requires q != [] && q <= p && At(n, q).None?
    ensures At(Touch(n, p), q).Some?
    ensures At(Touch(n, p), q).value.name == q[|q| - 1]
    ensures At(Touch(n, p), q).value.record == Some(FreshRecord)
    decreases |p|
  {
    var c := Index(n, p[0]).1;
    var r := Touch(n, p);
    assert q[0] == p[0];
    assert r.children[p[0]] == Touch(c, p[1..]);
    if |q| > 1 {
      assert q[1..] <= p[1..];
      if p[0] !in n.children {
        assert At(c, q[1..]) == None;
      }
      TouchCreatesFreshAlong(c, p[1..], q[1..]);
      assert q[1..][|q[1..]| - 1] == q[|q| - 1];
    }
  }

  /** Nodes with the same children agree below themselves. */
  lemma AtSameChildren(a: Node, b: Node, s: seq<string>)
    requires a.children == b.children && s != []
    ensures At(a, s) == At(b, s)
  {
  }

  /** Replacing one node leaves every node off its path untouched. */
  lemma {:induction false} PutLeavesOthers(n: Node, p: seq<string>, sub: Node, q: seq<string>)
    requires At(n, p).Some?
    requires !(q <= p) && !(p <= q)
    ensures At(Put(n, p, sub), q) == At(n, q)
    decreases |p|
  {
    var r := Put(n, p, sub);
    if q[0] != p[0] {
      if q[0] in n.children {
        assert r.children[q[0]] == n.children[q[0]];
      }
    } else {
      assert !(q[1..] <= p[1..]) && !(p[1..] <= q[1..]);
      PutLeavesOthers(n.children[p[0]], p[1..], sub, q[1..]);
    }
  }

  /** Replacing a node keeps the name, record and child names of each of its
      ancestors. */
  lemma {:induction false} PutKeepsAncestors(n: Node, p: seq<string>, sub: Node, q: seq<string>)
    requires At(n, p).Some? && q < p
    ensures At(n, q).Some? && At(Put(n, p, sub), q).Some?
    ensures At(Put(n, p, sub), q).value.name == At(n, q).value.name
    ensures At(Put(n, p, sub), q).value.record == At(n, q).value.record
    ensures At(Put(n, p, sub), q).value.children.Keys == At(n, q).value.children.Keys
    decreases |p|
  {
    if q != [] {
      assert q[0] == p[0] && q[1..] < p[1..];
      PutKeepsAncestors(n.children[p[0]], p[1..], sub, q[1..]);
    }
  }

  /** Below the replaced node, the tree is the replacement's. */
  lemma PutBelow(n: Node, p: seq<string>, sub: Node, s: seq<string>)
    requires At(n, p).Some?
    ensures At(Put(n, p, sub), p + s) == At(sub, s)
  {
    AtAppend(Put(n, p, sub), p, s);
  }

  /** Replacing a node by a well-formed node of the same name keeps the class
      invariant. */
  lemma {:induction false} PutKeepsWf(n: Node, p: seq<string>, sub: Node)
    requires Wf(n) && At(n, p).Some? && Wf(sub) && sub.name == At(n, p).value.name
    ensures Wf(Put(n, p, sub))
    decreases |p|
  {
    if p != [] {
      var c := n.children[p[0]];
      PutKeepsWf(c, p[1..], sub);
      var r := Put(n, p, sub);
      assert r.children[p[0]].name == c.name;
      forall k | k in r.children ensures r.children[k].name == k && Wf(r.children[k]) {
        if k != p[0] { assert r.children[k] == n.children[k]; }
      }
    }
  }

  /** `req` through a key path changes only the node the path leads to: every
      node that is not one of its ancestors, the node's own descendants
      included, stays as it was. */
  lemma ReqAtLeavesOthers(n: Node, p: seq<string>, shortName: string, help: string, filter: Filter,
                          q: seq<string>)
    requires At(n, p).Some? && ReqAt(n, p, shortName, help, filter).Success?
    requires !(q <= p)
    ensures At(ReqAt(n, p, shortName, help, filter).value, q) == At(n, q)
  {
    var target := At(n, p).value;
    var m := Req(target, shortName, help, filter).value;
    if p <= q {
      var s := q[|p|..];
      assert q == p + s;
      PutBelow(n, p, m, s);
      AtAppend(n, p, s);
      AtSameChildren(m, target, s);
    } else {
      PutLeavesOthers(n, p, m, q);
    }
  }

  /** `req` through a key path keeps the name, record and child names of
      every ancestor of the target, the root included. */
  lemma ReqAtKeepsAncestors(n: Node, p: seq<string>, shortName: string, help: string, filter: Filter,
                            q: seq<string>)
    requires At(n, p).Some? && ReqAt(n, p, shortName, help, filter).Success?
    requires q < p
    ensures At(n, q).Some? && At(ReqAt(n, p, shortName, help, filter).value, q).Some?
    ensures At(ReqAt(n, p, shortName, help, filter).value, q).value.name == At(n, q).value.name
    ensures At(ReqAt(n, p, shortName, help, filter).value, q).value.record == At(n, q).value.record
    ensures At(ReqAt(n, p, shortName, help, filter).value, q).value.children.Keys == At(n, q).value.children.Keys
  {
    PutKeepsAncestors(n, p, Req(At(n, p).value, shortName, help, filter).value, q);
  }

  lemma ReqAtKeepsWf(n: Node, p: seq<string>, shortName: string, help: string, filter: Filter)
    requires Wf(n) && At(n, p).Some? && ReqAt(n, p, shortName, help, filter).Success?
    ensures Wf(ReqAt(n, p, shortName, help, filter).value)
  {
    AtWf(n, p);
    var target := At(n, p).value;
    ReqKeepsWf(target, shortName, help, filter);
    PutKeepsWf(n, p, Req(target, shortName, help, filter).value);
  }

  /** `n[p0]…[pk].req(…)` on a well-formed tree: after the index chain, the
      declaration throws exactly when the last name in the chain is empty. */
  lemma DeclarationFailsIffLastNameEmpty(n: Node, p: seq<string>, shortName: string, help: string, filter: Filter)
    requires Wf(n) && p != []
    ensures ReqAt(Touch(n, p), p, shortName, help, filter).Failure? <==> p[|p| - 1] == ""
  {
    TouchKeepsWf(n, p);
    AtWf(Touch(n, p), p);
  }

  // ---------------------------------------------------------------------
  // The library's own test scenarios
  // ---------------------------------------------------------------------

  /** `map_simple_values`: declare `host` with `req` and `port` with `opt`;
      `host`'s help is the declared text and the root has two children. */
  lemma MapSimpleValues()
    ensures
      var t1 := Touch(Root, ["host"]);
      var t2 := ReqAt(t1, ["host"], "h", "the remote host name", StreamOnly);
      t2.Success? &&
      var t3 := Touch(t2.value, ["port"]);
      Opt(At(t3, ["port"]).value, "p", "the remote host port", 80) == Pass &&
      var t4 := Touch(t3, ["host"]);
      Help(At(t4, ["host"]).value) == Success("the remote host name") &&
      Size(t4) == 2
  {
    var t1 := Touch(Root, ["host"]);
    var t2 := ReqAt(t1, ["host"], "h", "the remote host name", StreamOnly).value;
    var t3 := Touch(t2, ["port"]);
    assert t3.children.Keys == {"host", "port"};
    assert |t3.children.Keys| == 2;
  }

  /** `map_empty_assert`: on a root nothing can be declared or read. */
  lemma MapEmptyAssert<T>(retrieve: Record -> T)
    ensures Help(Root) == Failure(MissingName)
    ensures GetText(Root) == Failure(MissingName)
    ensures GetTyped(Root, retrieve) == Failure(MissingName)
    ensures Req(Root, "x", "x", StreamOnly) == Failure(MissingName)
    ensures Opt(Root, "y", "y", 0) == Fail(MissingName)
  {
  }

  /** `map_with_custom_checks`: six successive `req`s on `x`; only the last
      one is left. */
  lemma MapCustomChecks()
    ensures
      var t := Touch(Root, ["x"]);
      var x := At(t, ["x"]).value;
      var r1 := Req(x, "x", "x = {1,2,3,4,5}", ObjectFilter).value;
      var r2 := Req(r1, "x", "x = {1,2}", ObjectFilter).value;
      var r3 := Req(r2, "x", "x = {a,b}", ObjectFilter).value;
      var r4 := Req(r3, "x", "x = {a,b}", ObjectFilter).value;
      var r5 := Req(r4, "x", "x = {1,2}", LambdaFilter).value;
      var r6 := Req(r5, "x", "x = {1,2}", ObjectFilter).value;
      r6.record == Some(Record("x = {1,2}", "x", "x", Required, Some(ObjectFilter)))
  {
  }
}
