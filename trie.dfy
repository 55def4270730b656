/**
 * The route trie: nodes keyed by path component, each node optionally
 * holding the entry registered for the pattern that ends there. Insertion
 * (`Router.insertRoute`) and lookup (`Router.findRouteEntry`) are specified
 * here as functions over trie values.
 *
 * The source keeps a node's entry under the reserved key "_entry" of the same
 * dictionary that holds its children; here the two are separate fields.
 */
module Trie {
  import opened Outcomes
  import opened Query

  /** A handler: code the application registered, run with the parameters, reporting success. */
  type Handler = Params -> bool

  /** A controller class, known by name only. */
  type ClassName = string

  /** What a pattern was registered with: a controller class, a handler, or (by mistake) neither. */
  datatype RouteEntry = RouteEntry(pattern: string, handler: Option<Handler>, klass: Option<ClassName>)

  /** The entry can be described for the log: it has a class or a handler (otherwise `description` traps). */
  predicate Describable(e: RouteEntry) {
    e.klass.Some? || e.handler.Some?
  }

  /** The entry `doMap` builds: the class when one is given, otherwise the (possibly absent) handler. */
  function NewEntry(route: string, cls: Option<ClassName>, handler: Option<Handler>): (e: RouteEntry)
    ensures e.pattern == route
    ensures Describable(e) <==> cls.Some? || handler.Some?
    ensures e.klass == cls && (cls.None? ==> e.handler == handler)
  {
    if cls.Some? then RouteEntry(route, None, cls) else RouteEntry(route, handler, None)
  }

  datatype Node = Node(children: map<string, Node>, entry: Option<RouteEntry>)

  /** The trie of a router with no routes. */
  const Empty := Node(map[], None)

  /** The last component, or the empty string for no components. */
  function LastOf(cs: seq<string>): string {
    if cs == [] then "" else cs[|cs| - 1]
  }

  /** The node reached from `t` by following the keys of `path`, if they are all there. */
  function NodeAt(t: Node, path: seq<string>): Option<Node>
    decreases |path|
  {
    if path == [] then Some(t)
    else if path[0] in t.children then NodeAt(t.children[path[0]], path[1..])
    else None
  }

  /** The entry stored at `path`, if any. */
  function EntryAt(t: Node, path: seq<string>): Option<RouteEntry> {
    match NodeAt(t, path)
    case Some(n) => n.entry
    case None => None
  }

  lemma {:induction false} NodeAtAppend(t: Node, a: seq<string>, b: seq<string>)
    ensures NodeAt(t, a + b) == match NodeAt(t, a) case Some(n) => NodeAt(n, b) case None => None
    decreases |a|
  {
    if a == [] {
      assert a + b == b;
    } else {
      assert (a + b)[0] == a[0] && (a + b)[1..] == a[1..] + b;
      if a[0] in t.children {
        NodeAtAppend(t.children[a[0]], a[1..], b);
      }
    }
  }

  /**
   * `insertRoute` from the components still to place (`rest`): an existing
   * node is descended into; a missing one is created, and when its key equals
   * the pattern's last component (`last`, compared by value) it receives the
   * entry and the insertion ends. Running out of components traps.
   */
  function Insert(t: Node, rest: seq<string>, last: string, e: RouteEntry): (r: Outcome<Node>)
    ensures r.Trapped? ==> r.trap == Fatal(EntryAlreayExisted) || r.trap == Fatal(InvalidRouteEntry)
    ensures r.Done? ==> rest != [] && r.value.entry == t.entry && t.children.Keys + {rest[0]} == r.value.children.Keys
    decreases |rest|
  {
    if rest == [] then Trapped(Fatal(EntryAlreayExisted))
    else
      var c := rest[0];
      if c !in t.children then
        if c == last then
          if Describable(e) then Done(t.(children := t.children[c := Node(map[], Some(e))]))
          else Trapped(Fatal(InvalidRouteEntry))
        else
          match Insert(Empty, rest[1..], last, e)
          case Done(child) => Done(t.(children := t.children[c := child]))
          case Trapped(x) => Trapped(x)
      else
        match Insert(t.children[c], rest[1..], last, e)
        case Done(child) => Done(t.(children := t.children[c := child]))
        case Trapped(x) => Trapped(x)
  }

  /**
   * Inserting a pattern's components into a trie, `last` being the final
   * component: it traps with `entryAlreayExisted` exactly when the path is
   * already there, with `invalidRouteEntry` exactly when it is not and the
   * entry cannot be described, and succeeds otherwise.
   */
  function Register(t: Node, comps: seq<string>, e: RouteEntry): (r: Outcome<Node>)
    ensures r == Trapped(Fatal(EntryAlreayExisted)) <==> NodeAt(t, comps).Some?
    ensures r == Trapped(Fatal(InvalidRouteEntry)) <==> NodeAt(t, comps).None? && !Describable(e)
    ensures r.Done? <==> NodeAt(t, comps).None? && Describable(e)
  {
    InsertOutcome(t, comps, LastOf(comps), e);
    Insert(t, comps, LastOf(comps), e)
  }

  /**
   * Below a missing node every remaining component is created, so only the
   * entry's description can still trap.
   */
  lemma {:induction false} InsertFresh(rest: seq<string>, last: string, e: RouteEntry)
    requires rest != [] && rest[|rest| - 1] == last
    ensures !Describable(e) ==> Insert(Empty, rest, last, e) == Trapped(Fatal(InvalidRouteEntry))
    ensures Describable(e) ==> Insert(Empty, rest, last, e).Done?
    decreases |rest|
  {
    if rest[0] != last {
      InsertFresh(rest[1..], last, e);
    }
  }

  /**
   * Registration traps with `entryAlreayExisted` exactly when the pattern's
   * whole path already exists (the same pattern again, or a prefix of an
   * existing one), traps in `description` exactly when the path is new but the
   * entry has neither class nor handler, and succeeds otherwise.
   */
  lemma {:induction false} InsertOutcome(t: Node, rest: seq<string>, last: string, e: RouteEntry)
    requires rest == [] || rest[|rest| - 1] == last
    ensures NodeAt(t, rest).Some? <==> Insert(t, rest, last, e) == Trapped(Fatal(EntryAlreayExisted))
    ensures NodeAt(t, rest).None? && !Describable(e) <==> Insert(t, rest, last, e) == Trapped(Fatal(InvalidRouteEntry))
    ensures NodeAt(t, rest).None? && Describable(e) <==> Insert(t, rest, last, e).Done?
    decreases |rest|
  {
    if rest != [] {
      var c := rest[0];
      if c !in t.children {
        if c != last {
          InsertFresh(rest[1..], last, e);
        }
      } else {
        InsertOutcome(t.children[c], rest[1..], last, e);
      }
    }
  }

  /** `b` extends `a`. */
  predicate IsPrefix(a: seq<string>, b: seq<string>) {
    |a| <= |b| && b[..|a|] == a
  }

  /**
   * Inserting into a trie that lacks `rest`'s path from its root creates
   * exactly the prefixes of `rest` and stores the entry at `rest` itself,
   * provided `last` occurs only at the end (terminal detection compares by
   * value). Nothing else changes.
   */
  lemma {:induction false} InsertPlaces(t: Node, rest: seq<string>, last: string, e: RouteEntry, t': Node)
    requires rest != [] && rest[|rest| - 1] == last && last !in rest[..|rest| - 1]
    requires Insert(t, rest, last, e) == Done(t')
    ensures EntryAt(t', rest) == Some(e)
    ensures forall q :: q != rest ==> EntryAt(t', q) == EntryAt(t, q)
    ensures forall q :: NodeAt(t', q).Some? <==> NodeAt(t, q).Some? || IsPrefix(q, rest)
    decreases |rest|
  {
    var c := rest[0];
    var base := if c in t.children then t.children[c] else Empty;
    if |rest| == 1 {
      assert c == last && c !in t.children;
      assert t' == t.(children := t.children[c := Node(map[], Some(e))]);
      forall q | q != [] ensures NodeAt(t', q) == if q == [c] then Some(Node(map[], Some(e))) else NodeAt(t, q) {
        if q != [] && q[0] == c && q[1..] != [] {
          assert NodeAt(t', q) == NodeAt(Node(map[], Some(e)), q[1..]) == None;
          assert NodeAt(t, q) == None;
        }
        if q != [] && q[0] == c && q[1..] == [] {
          assert q == [c];
        }
      }
      forall q ensures NodeAt(t', q).Some? <==> NodeAt(t, q).Some? || IsPrefix(q, rest) {
        if IsPrefix(q, rest) && q != [] {
          assert q == [c];
        }
      }
    } else {
      assert c != last by { assert rest[..|rest| - 1][0] == c; }
      assert rest[1..][..|rest| - 2] == rest[..|rest| - 1][1..];
      assert last !in rest[1..][..|rest[1..]| - 1];
      var child :| Insert(base, rest[1..], last, e) == Done(child) && t' == t.(children := t.children[c := child]);
      InsertPlaces(base, rest[1..], last, e, child);
      assert EntryAt(t', rest) == EntryAt(child, rest[1..]);
      forall q | q != rest
        ensures EntryAt(t', q) == EntryAt(t, q)
      {
        SameBelow(t, c, child, base, q);
        if q != [] && q[0] == c {
          assert q == [c] + q[1..] && rest == [c] + rest[1..];
          assert EntryAt(child, q[1..]) == EntryAt(base, q[1..]);
          assert EntryAt(t', q) == EntryAt(child, q[1..]);
        } else if q == [] {
          assert NodeAt(t', q) == Some(t') && NodeAt(t, q) == Some(t);
        }
      }
      forall q
        ensures NodeAt(t', q).Some? <==> NodeAt(t, q).Some? || IsPrefix(q, rest)
      {
        SameBelow(t, c, child, base, q);
        if q != [] && q[0] == c {
          assert IsPrefix(q, rest) <==> IsPrefix(q[1..], rest[1..]);
        }
      }
    }
  }

  /** Replacing the child under `c` changes only what lies below `c`. */
  lemma SameBelow(t: Node, c: string, child: Node, base: Node, q: seq<string>)
    requires base == if c in t.children then t.children[c] else Empty
    ensures var t' := t.(children := t.children[c := child]);
      if q != [] && q[0] == c then
        NodeAt(t', q) == NodeAt(child, q[1..]) && NodeAt(t, q) == (if c in t.children then NodeAt(base, q[1..]) else None) &&
        (c !in t.children ==> NodeAt(base, q[1..]).Some? == (q[1..] == []) && EntryAt(base, q[1..]) == None)
      else if q != [] then NodeAt(t', q) == NodeAt(t, q)
      else true
  {
    var t' := t.(children := t.children[c := child]);
    if q != [] && q[0] != c {
      assert q[0] in t'.children <==> q[0] in t.children;
      if q[0] in t.children {
        assert t'.children[q[0]] == t.children[q[0]];
      }
    }
    if q != [] && c !in t.children {
      EmptyHasNothingBelow(q[1..]);
    }
  }

  lemma EmptyHasNothingBelow(q: seq<string>)
    ensures NodeAt(Empty, q).Some? <==> q == []
    ensures EntryAt(Empty, q) == None
  {
  }

  /** A dynamic key: `:name` binds `name`. */
  predicate IsParam(k: string) {
    |k| > 0 && k[0] == ':'
  }

  /** The node has a dynamic child. */
  predicate HasParamChild(n: Node) {
    exists k :: k in n.children && IsParam(k)
  }

  /** The dynamic child the lookup takes; the source takes whichever its dictionary enumerates first. */
  ghost function DynamicKey(n: Node): (k: string)
    requires HasParamChild(n)
    ensures k in n.children && IsParam(k)
  {
    var k :| k in n.children && IsParam(k); k
  }

  /** At most one dynamic child at this node. */
  predicate AtMostOneParam(n: Node) {
    forall a, b :: a in n.children && b in n.children && IsParam(a) && IsParam(b) ==> a == b
  }

  /** At most one dynamic child at every node, so lookup's choice among them is determined. */
  predicate Unambiguous(n: Node)
    decreases n
  {
    AtMostOneParam(n) && forall k :: k in n.children ==> Unambiguous(n.children[k])
  }

  /**
   * Placing `rest` below `t` gives no node a second dynamic child: where a
   * dynamic component becomes a new key, its node has no dynamic child yet.
   */
  predicate AddsNoSecondParam(t: Node, rest: seq<string>)
    decreases |rest|
  {
    rest == [] ||
    ((rest[0] !in t.children && IsParam(rest[0]) ==> !HasParamChild(t)) &&
     (rest[0] in t.children ==> AddsNoSecondParam(t.children[rest[0]], rest[1..])))
  }

  /** A pattern without dynamic components adds no dynamic child at all. */
  lemma {:induction false} LiteralAddsNoSecondParam(t: Node, rest: seq<string>)
    requires forall i :: 0 <= i < |rest| ==> !IsParam(rest[i])
    ensures AddsNoSecondParam(t, rest)
    decreases |rest|
  {
    if rest != [] && rest[0] in t.children {
      assert forall i :: 0 <= i < |rest| - 1 ==> rest[1..][i] == rest[i + 1];
      LiteralAddsNoSecondParam(t.children[rest[0]], rest[1..]);
    }
  }

  /** The chain of nodes created below a missing one has one child per node. */
  lemma {:induction false} FreshUnambiguous(rest: seq<string>, last: string, e: RouteEntry, c: Node)
    requires Insert(Empty, rest, last, e) == Done(c)
    ensures Unambiguous(c)
    decreases |rest|
  {
    var k := rest[0];
    var child: Node;
    if k == last {
      child := Node(map[], Some(e));
    } else {
      child :| Insert(Empty, rest[1..], last, e) == Done(child) && c == Node(map[k := child], None);
      FreshUnambiguous(rest[1..], last, e, child);
    }
    assert c == Node(map[k := child], None);
    assert c.children.Keys == {k};
  }

  /**
   * Registration keeps every node at most one dynamic child as long as it
   * adds no second one, so lookups stay determined after `doMap`.
   */
  lemma {:induction false} InsertKeepsUnambiguous(t: Node, rest: seq<string>, last: string, e: RouteEntry, t': Node)
    requires Unambiguous(t) && AddsNoSecondParam(t, rest)
    requires Insert(t, rest, last, e) == Done(t')
    ensures Unambiguous(t')
    decreases |rest|
  {
    var c := rest[0];
    var child: Node;
    if c !in t.children {
      if c == last {
        child := Node(map[], Some(e));
      } else {
        child :| Insert(Empty, rest[1..], last, e) == Done(child) && t' == t.(children := t.children[c := child]);
        FreshUnambiguous(rest[1..], last, e, child);
      }
    } else {
      child :| Insert(t.children[c], rest[1..], last, e) == Done(child) && t' == t.(children := t.children[c := child]);
      InsertKeepsUnambiguous(t.children[c], rest[1..], last, e, child);
    }
    assert t' == t.(children := t.children[c := child]);
    forall a, b | a in t'.children && b in t'.children && IsParam(a) && IsParam(b) ensures a == b {
      if a != c && b != c {
        assert a in t.children && b in t.children;
      } else if c !in t.children {
        assert !HasParamChild(t);
      }
    }
    forall k | k in t'.children ensures Unambiguous(t'.children[k]) {
      if k != c {
        assert t'.children[k] == t.children[k];
      }
    }
  }

  /** What lookup produces: the entry (or a trap) and the parameters bound on the way. */
  datatype Lookup = Lookup(result: Outcome<Option<RouteEntry>>, params: Params)

  /**
   * `findRouteEntry`'s walk from node `n` over the components `segs` still to
   * match. A literal child equal to the component is preferred; otherwise a
   * dynamic child is taken and binds its name to the component; a component
   * matching neither is skipped. When the taken key's component equals the
   * route's last component (by value), the walk ends with that child's entry:
   * a literal child without an entry traps on the forced cast, a dynamic one
   * gives no entry. Running out of components gives no entry.
   */
  ghost function Walk(n: Node, segs: seq<string>, last: string, params: Params): Lookup
    decreases |segs|
  {
    if segs == [] then Lookup(Done(None), params)
    else
      var seg := segs[0];
      if seg in n.children then
        var child := n.children[seg];
        if seg == last then
          Lookup(if child.entry.Some? then Done(child.entry) else Trapped(ForceCast), params)
        else Walk(child, segs[1..], last, params)
      else if HasParamChild(n) then
        var k := DynamicKey(n);
        var p := params[k[1..] := seg];
        if seg == last then Lookup(Done(n.children[k].entry), p)
        else Walk(n.children[k], segs[1..], last, p)
      else Walk(n, segs[1..], last, params)
  }

  /**
   * Lookup of a whole component sequence: it keeps every parameter it was
   * given, and its only trap is the forced cast.
   */
  ghost function Resolve(t: Node, segs: seq<string>, params: Params): (r: Lookup)
    ensures params.Keys <= r.params.Keys
    ensures r.result.Trapped? ==> r.result.trap == ForceCast
  {
    WalkKeeps(t, segs, LastOf(segs), params);
    Walk(t, segs, LastOf(segs), params)
  }

  /** The walk keeps every parameter it was given, and its only trap is the forced cast. */
  lemma {:induction false} WalkKeeps(n: Node, segs: seq<string>, last: string, params: Params)
    ensures params.Keys <= Walk(n, segs, last, params).params.Keys
    ensures Walk(n, segs, last, params).result.Trapped? ==> Walk(n, segs, last, params).result.trap == ForceCast
    decreases |segs|
  {
    if segs != [] {
      var seg := segs[0];
      if seg in n.children {
        if seg != last {
          WalkKeeps(n.children[seg], segs[1..], last, params);
        }
      } else if HasParamChild(n) {
        var k := DynamicKey(n);
        if seg != last {
          WalkKeeps(n.children[k], segs[1..], last, params[k[1..] := seg]);
        }
      } else {
        WalkKeeps(n, segs[1..], last, params);
      }
    }
  }

  /** A literal path that avoids the last component is followed key by key. */
  lemma {:induction false} WalkThrough(t: Node, q: seq<string>, rest: seq<string>, last: string, params: Params)
    requires NodeAt(t, q).Some? && last !in q
    ensures Walk(t, q + rest, last, params) == Walk(NodeAt(t, q).value, rest, last, params)
    decreases |q|
  {
    if q == [] {
      assert q + rest == rest;
    } else {
      assert (q + rest)[0] == q[0] && (q + rest)[1..] == q[1..] + rest;
      assert last !in q[1..] by { assert forall i :: 0 <= i < |q| - 1 ==> q[1..][i] == q[i + 1]; }
      WalkThrough(t.children[q[0]], q[1..], rest, last, params);
    }
  }

  /**
   * A registered literal path resolves to its node's entry, whatever dynamic
   * siblings lie along it, and traps when that node has no entry; the last
   * component must not occur earlier in the path.
   */
  lemma LiteralLookup(t: Node, path: seq<string>, params: Params)
    requires path != [] && LastOf(path) !in path[..|path| - 1]
    requires NodeAt(t, path).Some?
    ensures Resolve(t, path, params) ==
      Lookup(if NodeAt(t, path).value.entry.Some? then Done(NodeAt(t, path).value.entry) else Trapped(ForceCast), params)
  {
    var n := |path|;
    var q, last := path[..n - 1], path[n - 1];
    assert path == q + [last];
    NodeAtAppend(t, q, [last]);
    WalkThrough(t, q, [last], last, params);
  }

  /**
   * At a node reached by a literal path, a value that is no literal child is
   * taken by the node's only dynamic child `:name`, which binds `name` to it.
   * As the last component, it ends the walk with that child's entry.
   */
  lemma DynamicLookup(t: Node, q: seq<string>, name: string, v: string, params: Params)
    requires NodeAt(t, q).Some? && v !in q
    requires var n := NodeAt(t, q).value;
      v !in n.children && ":" + name in n.children && AtMostOneParam(n)
    ensures Resolve(t, q + [v], params) ==
      Lookup(Done(NodeAt(t, q).value.children[":" + name].entry), params[name := v])
  {
    var n := NodeAt(t, q).value;
    assert IsParam(":" + name);
    assert (q + [v])[|q + [v]| - 1] == v;
    WalkThrough(t, q, [v], v, params);
    assert (":" + name)[1..] == name;
  }

  /** Not as the last component, the value is bound and the walk continues below `:name`. */
  lemma DynamicDescend(t: Node, q: seq<string>, name: string, v: string, rest: seq<string>, last: string, params: Params)
    requires NodeAt(t, q).Some? && last !in q && v != last
    requires var n := NodeAt(t, q).value;
      v !in n.children && ":" + name in n.children && AtMostOneParam(n)
    ensures Walk(t, q + [v] + rest, last, params) ==
      Walk(NodeAt(t, q).value.children[":" + name], rest, last, params[name := v])
  {
    assert IsParam(":" + name);
    assert q + [v] + rest == q + ([v] + rest);
    WalkThrough(t, q, [v] + rest, last, params);
    assert ([v] + rest)[1..] == rest;
    assert (":" + name)[1..] == name;
  }

  /**
   * A component that matches neither a literal nor a dynamic child leaves the
   * walk where it was: it is skipped.
   */
  lemma SkipUnmatched(t: Node, q: seq<string>, s: string, rest: seq<string>, last: string, params: Params)
    requires NodeAt(t, q).Some? && last !in q
    requires var n := NodeAt(t, q).value; s !in n.children && !HasParamChild(n)
    ensures Walk(t, q + [s] + rest, last, params) == Walk(t, q + rest, last, params)
  {
    assert q + [s] + rest == q + ([s] + rest);
    WalkThrough(t, q, [s] + rest, last, params);
    WalkThrough(t, q, rest, last, params);
    assert ([s] + rest)[1..] == rest;
  }

  /** An empty trie finds nothing and binds nothing. */
  lemma {:induction false} WalkEmpty(segs: seq<string>, last: string, params: Params)
    ensures Walk(Empty, segs, last, params) == Lookup(Done(None), params)
    decreases |segs|
  {
    if segs != [] {
      assert !HasParamChild(Empty);
      WalkEmpty(segs[1..], last, params);
    }
  }

  /** Looking anything up in an empty trie finds nothing. */
  lemma ResolveEmpty(segs: seq<string>, params: Params)
    ensures Resolve(Empty, segs, params) == Lookup(Done(None), params)
  {
    WalkEmpty(segs, LastOf(segs), params);
  }

  /**
   * The walk only adds bindings: its parameters are the ones it started with,
   * overwritten by the dynamic segments it took.
   */
  lemma {:induction false} WalkParams(n: Node, segs: seq<string>, last: string, params: Params)
    ensures Walk(n, segs, last, params).params == params + Walk(n, segs, last, map[]).params
    ensures Walk(n, segs, last, params).result == Walk(n, segs, last, map[]).result
    decreases |segs|
  {
    if segs != [] {
      var seg := segs[0];
      if seg !in n.children && HasParamChild(n) {
        var k := DynamicKey(n);
        var key := k[1..];
        if seg != last {
          WalkParams(n.children[k], segs[1..], last, params[key := seg]);
          WalkParams(n.children[k], segs[1..], last, map[][key := seg]);
          assert params[key := seg] == params + map[][key := seg];
        }
      } else if seg in n.children && seg != last {
        WalkParams(n.children[seg], segs[1..], last, params);
      } else if seg !in n.children {
        WalkParams(n, segs[1..], last, params);
      }
    }
  }

  /**
   * The round trip of registration: a pattern inserted successfully is found
   * again by looking up its own components (the last component occurring only
   * at the end).
   */
  lemma InsertThenResolve(t: Node, comps: seq<string>, e: RouteEntry, t': Node, params: Params)
    requires comps != [] && LastOf(comps) !in comps[..|comps| - 1]
    requires Register(t, comps, e) == Done(t')
    ensures Resolve(t', comps, params) == Lookup(Done(Some(e)), params)
  {
    InsertPlaces(t, comps, LastOf(comps), e, t');
    LiteralLookup(t', comps, params);
  }

  /**
   * Terminal detection compares by value, so a pattern whose last component
   * occurs earlier in it is not found again: with `/x/z` registered,
   * `/x/y/x` registers successfully under `/x/y`, yet its lookup stops at
   * `/x`, which holds no entry, and traps on the forced cast.
   */
  lemma EarlierLastComponentTraps(r: string, x: string, y: string, z: string, e1: RouteEntry, e2: RouteEntry, params: Params)
    requires r != x && r != y && r != z && x != y && x != z && y != z
    requires Describable(e1) && Describable(e2)
    ensures var t1 := Register(Empty, [r, x, z], e1);
      t1.Done? &&
      var t2 := Register(t1.value, [r, x, y, x], e2);
      t2.Done? && EntryAt(t2.value, [r, x, y, x]) == Some(e2) &&
      Resolve(t2.value, [r, x, y, x], params) == Lookup(Trapped(ForceCast), params)
  {
    var leaf1, leaf2 := Node(map[], Some(e1)), Node(map[], Some(e2));
    var nx := Node(map[z := leaf1], None);
    var t1 := Node(map[r := Node(map[x := nx], None)], None);
    assert [r, x, z][1..] == [x, z] && [x, z][1..] == [z];
    assert Insert(Empty, [z], z, e1) == Done(nx);
    assert Insert(Empty, [x, z], z, e1) == Done(Node(map[x := nx], None));
    assert Register(Empty, [r, x, z], e1) == Done(t1);
    var ny := Node(map[x := leaf2], None);
    var nx' := Node(map[z := leaf1, y := ny], None);
    var t2 := Node(map[r := Node(map[x := nx'], None)], None);
    var p := [r, x, y, x];
    assert p[1..] == [x, y, x] && [x, y, x][1..] == [y, x] && [y, x][1..] == [x] && [x][1..] == [];
    assert Insert(Empty, [x], x, e2) == Done(ny);
    assert Insert(nx, [y, x], x, e2) == Done(nx');
    var nr := Node(map[x := nx], None);
    assert t1.children[r] == nr;
    assert nr.children[x := nx'] == map[x := nx'];
    assert Insert(nr, [x, y, x], x, e2) == Done(Node(map[x := nx'], None));
    assert t1.children[r := Node(map[x := nx'], None)] == map[r := Node(map[x := nx'], None)];
    assert Register(t1, p, e2) == Done(t2);
    assert NodeAt(ny, [x]) == Some(leaf2);
    assert NodeAt(nx', [y, x]) == Some(leaf2);
    assert NodeAt(Node(map[x := nx'], None), [x, y, x]) == Some(leaf2);
    assert NodeAt(t2, p) == Some(leaf2);
    assert Walk(t2, p, x, params) == Walk(Node(map[x := nx'], None), [x, y, x], x, params);
  }

  /**
   * Terminal detection compares by value: registering `/x/y/x` in an empty
   * trie stores the entry at `/x`, and a lookup of `/x/q/x` then finds it.
   */
  lemma RepeatedLastComponent(e: RouteEntry, params: Params)
    requires Describable(e)
    ensures var t' := Register(Empty, ["/", "x", "y", "x"], e);
      t'.Done? && EntryAt(t'.value, ["/", "x"]) == Some(e) && NodeAt(t'.value, ["/", "x", "y"]).None? &&
      Resolve(t'.value, ["/", "x", "q", "x"], params) == Lookup(Done(Some(e)), params)
  {
    var leaf := Node(map[], Some(e));
    var t' := Node(map["/" := Node(map["x" := leaf], None)], None);
    assert Insert(Empty, ["x", "y", "x"], "x", e) == Done(Node(map["x" := leaf], None));
    assert Register(Empty, ["/", "x", "y", "x"], e) == Done(t');
    assert NodeAt(t', ["/", "x"]) == Some(leaf) by {
      assert ["/", "x"][1..] == ["x"] && ["x"][1..] == [];
    }
    assert NodeAt(t', ["/", "x", "y"]) == None by {
      assert ["/", "x", "y"][1..] == ["x", "y"] && ["x", "y"][1..] == ["y"];
    }
    var segs := ["/", "x", "q", "x"];
    assert segs[1..] == ["x", "q", "x"];
  }
}
