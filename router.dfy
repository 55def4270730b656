/**
 * The router object (`Router`): one trie of registered patterns, updated by
 * registration and reset, and read by lookup, parameter extraction and
 * handler dispatch.
 */
module SwiftRouter {
  import opened Outcomes
  import opened Text
  import opened Schemes
  import opened Tokenizer
  import opened Query
  import opened Trie

  /** Lookup of a route string, scheme tag removed: what `findRouteEntry` computes. */
  ghost function Find(t: Node, schemes: seq<string>, route: string, params: Params): Lookup {
    Resolve(t, Tokenize(FilterAppSchemes(route, schemes)), params)
  }

  /** The parameters of the fragment: the text after the first `#`. */
  function FragmentParams(route: string): Params {
    if '#' in route then QueryParams(After(route, '#')) else map[]
  }

  /** The parameters of the query: the text after the first `?` of what precedes the first `#`. */
  function QueryPartParams(route: string): Params {
    var path := Before(route, '#');
    if '?' in path then QueryParams(After(path, '?')) else map[]
  }

  /**
   * What `paramsInRoute` computes: the path bindings of a lookup of the route
   * filtered twice, overwritten by the fragment's parameters, overwritten in
   * turn by the query's. The lookup's trap ends it.
   */
  ghost function RouteParams(t: Node, schemes: seq<string>, route: string): Outcome<Params> {
    var found := Find(t, schemes, FilterAppSchemes(route, schemes), map[]);
    if found.result.Trapped? then Trapped(found.result.trap)
    else Done(found.params + FragmentParams(route) + QueryPartParams(route))
  }

  /** A route no listed scheme tags is looked up and parsed as it is. */
  predicate Untagged(route: string, schemes: seq<string>) {
    forall i :: 0 <= i < |schemes| ==> !HasPrefix(route, Tag(schemes[i]))
  }

  /**
   * The path of `path?query#fragment`: the query is the text between `?` and
   * `#`, the fragment the text after `#`.
   */
  lemma QueryAndFragment(path: string, query: string, fragment: string)
    requires '?' !in path && '#' !in path && '#' !in query
    ensures var route := path + "?" + query + "#" + fragment;
      QueryPartParams(route) == QueryParams(query) && FragmentParams(route) == QueryParams(fragment)
  {
    var head := path + "?" + query;
    assert '#' !in head by {
      assert forall i :: 0 <= i < |head| ==> head[i] == if i < |path| then path[i] else if i == |path| then '?' else query[i - |path| - 1];
    }
    FirstOccurrence(head, '#', fragment);
    FirstOccurrence(path, '?', query);
  }

  /**
   * Parameters from the query override those from the fragment, which
   * override the bindings of dynamic path segments.
   */
  lemma ParamsPrecedence(t: Node, schemes: seq<string>, route: string, k: string)
    requires RouteParams(t, schemes, route).Done?
    ensures var ps := RouteParams(t, schemes, route).value;
      var path := Find(t, schemes, FilterAppSchemes(route, schemes), map[]).params;
      var f, q := FragmentParams(route), QueryPartParams(route);
      (k in ps <==> k in path || k in f || k in q) &&
      (k in q ==> ps[k] == q[k]) &&
      (k !in q && k in f ==> ps[k] == f[k]) &&
      (k !in q && k !in f && k in path ==> ps[k] == path[k])
  {
  }

  /**
   * The route of the tests, `/user/1?password=234#username=hello&password=123&foo`,
   * under a trie where `/user` has the single dynamic child `:userId`: the
   * path binds userId to 1, the query's password wins over the fragment's,
   * and the fragment's username survives.
   */
  lemma QueryOverridesFragment(t: Node, schemes: seq<string>, a: string, name: string, v: string,
                               uk: string, uv: string, pk: string, pv1: string, pv2: string, junk: string)
    requires IsName(a) && IsName(v) && a != v
    requires '?' !in a + v && '#' !in a + v
    requires uk != pk && name != uk && name != pk
    requires Plain(uk) && Plain(uv) && Plain(pk) && Plain(pv1) && Plain(pv2) && Plain(junk)
    requires Untagged("/" + a + "/" + v + "?" + (pk + "=" + pv1) + "#" + (uk + "=" + uv + "&" + (pk + "=" + pv2) + "&" + junk), schemes)
    requires NodeAt(t, ["/", a]).Some?
    requires var n := NodeAt(t, ["/", a]).value;
      v !in n.children && ":" + name in n.children && AtMostOneParam(n)
    ensures var ps := RouteParams(t, schemes, "/" + a + "/" + v + "?" + (pk + "=" + pv1) + "#" + (uk + "=" + uv + "&" + (pk + "=" + pv2) + "&" + junk));
      ps.Done? && name in ps.value && ps.value[name] == v &&
      pk in ps.value && ps.value[pk] == pv1 && uk in ps.value && ps.value[uk] == uv
  {
    var path := "/" + a + "/" + v;
    var query := pk + "=" + pv1;
    var fragment := uk + "=" + uv + "&" + (pk + "=" + pv2) + "&" + junk;
    var route := path + "?" + query + "#" + fragment;
    SlashPath(a, v);
    TestQueryAndFragment(path, uk, uv, pk, pv1, pv2, junk);
    Reassociate(path, query, fragment);
    ResolveDynamicRoute(t, schemes, a, name, v, query + "#" + fragment, map[]);
    UntaggedRouteParams(t, schemes, route);
    Merge(name, v, uk, uv, pk, pv1, pv2);
  }

  /** An untagged route whose lookup does not trap gets its path bindings, then the fragment's, then the query's. */
  lemma UntaggedRouteParams(t: Node, schemes: seq<string>, route: string)
    requires Untagged(route, schemes)
    requires Find(t, schemes, route, map[]).result.Done?
    ensures RouteParams(t, schemes, route) == Done(Find(t, schemes, route, map[]).params + FragmentParams(route) + QueryPartParams(route))
  {
    Unfiltered(route, schemes);
  }

  lemma Merge(name: string, v: string, uk: string, uv: string, pk: string, pv1: string, pv2: string)
    requires uk != pk && name != uk && name != pk
    ensures var ps := map[name := v] + map[uk := uv, pk := pv2] + map[pk := pv1];
      name in ps && ps[name] == v && pk in ps && ps[pk] == pv1 && uk in ps && ps[uk] == uv
  {
  }

  lemma SlashPath(a: string, v: string)
    requires '?' !in a + v && '#' !in a + v
    ensures '?' !in "/" + a + "/" + v && '#' !in "/" + a + "/" + v
  {
    var path := "/" + a + "/" + v;
    assert forall i :: 0 <= i < |path| ==> path[i] == '/' || path[i] in a + v by {
      forall i | 0 <= i < |path| ensures path[i] == '/' || path[i] in a + v {
        if 1 <= i <= |a| {
          assert path[i] == (a + v)[i - 1];
        } else if i > |a| + 1 {
          assert path[i] == (a + v)[i - 2];
        }
      }
    }
  }

  lemma Reassociate(path: string, query: string, fragment: string)
    ensures path + "?" + query + "#" + fragment == path + "?" + (query + "#" + fragment)
  {
  }

  /** A route no listed scheme tags passes the filter unchanged. */
  lemma Unfiltered(route: string, schemes: seq<string>)
    requires Untagged(route, schemes)
    ensures FilterAppSchemes(route, schemes) == route
  {
  }

  /** The query and fragment of the tests' route `path?pk=pv1#uk=uv&pk=pv2&junk`. */
  lemma TestQueryAndFragment(path: string, uk: string, uv: string, pk: string, pv1: string, pv2: string, junk: string)
    requires '?' !in path && '#' !in path
    requires uk != pk
    requires Plain(uk) && Plain(uv) && Plain(pk) && Plain(pv1) && Plain(pv2) && Plain(junk)
    ensures var route := path + "?" + (pk + "=" + pv1) + "#" + (uk + "=" + uv + "&" + (pk + "=" + pv2) + "&" + junk);
      QueryPartParams(route) == map[pk := pv1] && FragmentParams(route) == map[uk := uv, pk := pv2]
  {
    var query := pk + "=" + pv1;
    var fragment := uk + "=" + uv + "&" + (pk + "=" + pv2) + "&" + junk;
    QueryAndFragment(path, query, fragment);
    TwoBindingsAndPlain(uk, uv, pk, pv2, junk);
    SingleBinding(pk, pv1);
  }

  /** Text that is a plain key or value: no `=`, `&` or `#`. */
  predicate Plain(w: string) {
    '=' !in w && '&' !in w && '#' !in w
  }

  lemma SingleBinding(k: string, v: string)
    requires '=' !in k && '=' !in v && '&' !in k && '&' !in v
    ensures QueryParams(k + "=" + v) == map[k := v]
  {
    var piece := k + "=" + v;
    assert '&' !in piece by { assert forall i :: 0 <= i < |piece| ==> piece[i] in k || piece[i] == '=' || piece[i] in v; }
    SplitNoSeparator(piece, '&');
    AppendBinding([], k, v);
    assert [] + [piece] == [piece];
  }

  /**
   * `/a/v?query` under a trie where `/a` has the single dynamic child
   * `:name` and no literal child `v` resolves to that child's entry and binds
   * `name` to `v` (`/user/1` gives userId = "1").
   */
  lemma ResolveDynamicRoute(t: Node, schemes: seq<string>, a: string, name: string, v: string, query: string, params: Params)
    requires IsName(a) && IsName(v) && a != v
    requires '?' !in a + v && '#' !in a + v
    requires Untagged("/" + a + "/" + v + "?" + query, schemes)
    requires NodeAt(t, ["/", a]).Some?
    requires var n := NodeAt(t, ["/", a]).value;
      v !in n.children && ":" + name in n.children && AtMostOneParam(n)
    ensures Find(t, schemes, "/" + a + "/" + v + "?" + query, params) ==
      Lookup(Done(NodeAt(t, ["/", a]).value.children[":" + name].entry), params[name := v])
  {
    var route := "/" + a + "/" + v + "?" + query;
    TwoComponents(a, v, query);
    assert FilterAppSchemes(route, schemes) == route;
    assert ["/", a] + [v] == ["/", a, v];
    assert v !in ["/", a] by { assert '/' in "/"; }
    DynamicLookup(t, ["/", a], name, v, params);
  }

  /** `/a/v?query` has the components "/", `a`, `v`. */
  lemma TwoComponents(a: string, v: string, query: string)
    requires IsName(a) && IsName(v)
    requires '?' !in a + v && '#' !in a + v
    ensures Tokenize("/" + a + "/" + v + "?" + query) == ["/", a, v]
  {
    var path := "/" + a + "/" + v;
    assert '?' !in a && '?' !in v && '#' !in a && '#' !in v;
    assert Join([a, v], '/') == a + "/" + v by { assert [a, v][1..] == [v]; }
    assert path == "/" + Join([a, v], '/');
    TokenizeAbsolute([a, v]);
    assert '?' !in path && '#' !in path by { JoinAvoids([a, v], '/', '?'); JoinAvoids([a, v], '/', '#'); }
    QueryIgnored(path, query);
  }

  /** `/n1/.../nk?query` has the components "/", n1, ..., nk, and its path has neither `?` nor `#`. */
  lemma AbsoluteRoute(names: seq<string>, query: string)
    requires names != []
    requires forall i :: 0 <= i < |names| ==> IsName(names[i]) && '?' !in names[i] && '#' !in names[i]
    ensures '?' !in "/" + Join(names, '/') && '#' !in "/" + Join(names, '/')
    ensures Tokenize("/" + Join(names, '/') + "?" + query) == ["/"] + names
  {
    var path := "/" + Join(names, '/');
    TokenizeAbsolute(names);
    JoinAvoids(names, '/', '?');
    JoinAvoids(names, '/', '#');
    QueryIgnored(path, query);
  }

  /**
   * `/n1/.../nk?query` resolves by literal keys to the entry of the node at
   * that path, before any dynamic sibling (`/user/add` beats `/user/:userId`),
   * and traps when that node has no entry (`/user` when only `/user/:userId`
   * is registered).
   */
  lemma ResolveLiteralRoute(t: Node, schemes: seq<string>, names: seq<string>, query: string, params: Params)
    requires names != []
    requires forall i :: 0 <= i < |names| ==> IsName(names[i]) && '?' !in names[i] && '#' !in names[i]
    requires names[|names| - 1] !in names[..|names| - 1]
    requires Untagged("/" + Join(names, '/') + "?" + query, schemes)
    requires NodeAt(t, ["/"] + names).Some?
    ensures var n := NodeAt(t, ["/"] + names).value;
      Find(t, schemes, "/" + Join(names, '/') + "?" + query, params) ==
      Lookup(if n.entry.Some? then Done(n.entry) else Trapped(ForceCast), params)
  {
    var route := "/" + Join(names, '/') + "?" + query;
    AbsoluteRoute(names, query);
    assert FilterAppSchemes(route, schemes) == route;
    LiteralComponents(names);
    LiteralLookup(t, ["/"] + names, params);
  }

  /** The last of "/", n1, ..., nk occurs only at the end when nk does not occur earlier among the names. */
  lemma LiteralComponents(names: seq<string>)
    requires names != [] && IsName(names[|names| - 1])
    requires names[|names| - 1] !in names[..|names| - 1]
    ensures var comps := ["/"] + names; LastOf(comps) !in comps[..|comps| - 1]
  {
    var comps := ["/"] + names;
    assert comps[..|comps| - 1] == ["/"] + names[..|names| - 1];
    assert LastOf(comps) != "/" by { assert '/' in "/"; }
  }

  /**
   * A handler registered at a literal path receives exactly the query's
   * parameters (`/user/add?username=hello&password=123` gives username and
   * password): a literal walk binds nothing and there is no fragment.
   */
  lemma LiteralRouteParams(t: Node, schemes: seq<string>, names: seq<string>, query: string)
    requires names != []
    requires forall i :: 0 <= i < |names| ==> IsName(names[i]) && '?' !in names[i] && '#' !in names[i]
    requires names[|names| - 1] !in names[..|names| - 1]
    requires '#' !in query
    requires Untagged("/" + Join(names, '/') + "?" + query, schemes)
    requires NodeAt(t, ["/"] + names).Some? && NodeAt(t, ["/"] + names).value.entry.Some?
    ensures var route := "/" + Join(names, '/') + "?" + query;
      Find(t, schemes, route, map[]) == Lookup(Done(NodeAt(t, ["/"] + names).value.entry), map[]) &&
      RouteParams(t, schemes, route) == Done(QueryParams(query))
  {
    var path := "/" + Join(names, '/');
    var route := path + "?" + query;
    ResolveLiteralRoute(t, schemes, names, query, map[]);
    AbsoluteRoute(names, query);
    assert FilterAppSchemes(route, schemes) == route;
    NoFragment(path, query);
    EmptyUnion(map[]);
    EmptyUnion(QueryParams(query));
  }

  /** `path?query` with no `#` anywhere has only query parameters. */
  lemma NoFragment(path: string, query: string)
    requires '?' !in path && '#' !in path && '#' !in query
    ensures FragmentParams(path + "?" + query) == map[]
    ensures QueryPartParams(path + "?" + query) == QueryParams(query)
  {
    var route := path + "?" + query;
    assert '#' !in route by {
      assert forall i :: 0 <= i < |route| ==> route[i] == if i < |path| then path[i] else if i == |path| then '?' else query[i - |path| - 1];
    }
    FirstOccurrence(path, '?', query);
  }

  /** A component that matches nothing under the root is skipped, so `/unknown` finds nothing. */
  lemma UnknownRoute(t: Node, s: string, params: Params)
    requires NodeAt(t, ["/"]).Some? && s != "/"
    requires var n := NodeAt(t, ["/"]).value; s !in n.children && !HasParamChild(n)
    ensures Resolve(t, ["/", s], params) == Lookup(Done(None), params)
  {
    assert ["/", s][1..] == [s] && [s][1..] == [];
    var n := NodeAt(t, ["/"]).value;
    assert n == t.children["/"];
    assert Walk(n, [s], s, params) == Walk(n, [], s, params);
  }

  /** After `removeAllRoutes` nothing resolves and only the query and fragment give parameters. */
  lemma AfterReset(schemes: seq<string>, route: string, params: Params)
    ensures Find(Empty, schemes, route, params) == Lookup(Done(None), params)
    ensures RouteParams(Empty, schemes, route) == Done(FragmentParams(route) + QueryPartParams(route))
  {
    FindEmpty(schemes, route, params);
    FindEmpty(schemes, FilterAppSchemes(route, schemes), map[]);
    EmptyUnion(FragmentParams(route));
  }

  lemma EmptyUnion(m: Params)
    ensures map[] + m == m
  {
  }

  lemma UnionEmpty(m: Params)
    ensures m + map[] == m
  {
  }

  lemma FindEmpty(schemes: seq<string>, route: string, params: Params)
    ensures Find(Empty, schemes, route, params) == Lookup(Done(None), params)
  {
    ResolveEmpty(Tokenize(FilterAppSchemes(route, schemes)), params);
  }

  /**
   * The second lookup of `matchController` starts from `paramsInRoute`'s
   * parameters and writes its own path bindings over them, so for a dynamic
   * segment's name the path value beats a query or fragment value.
   */
  lemma ControllerParams(t: Node, schemes: seq<string>, route: string, params: Params)
    ensures Find(t, schemes, route, params).params == params + Find(t, schemes, route, map[]).params
    ensures Find(t, schemes, route, params).result == Find(t, schemes, route, map[]).result
  {
    var segs := Tokenize(FilterAppSchemes(route, schemes));
    WalkParams(t, segs, LastOf(segs), params);
  }

  /**
   * `paramsInRoute` filters the scheme twice, `matchHandler` once: with the
   * scheme `s` listed, `s:s:/x` is looked up as `s:/x` by one and as `/x`
   * by the other.
   */
  lemma DoubleFiltering(s: string, rest: string)
    ensures FilterAppSchemes(Tag(s) + Tag(s) + rest, [s]) == Tag(s) + rest
    ensures FilterAppSchemes(FilterAppSchemes(Tag(s) + Tag(s) + rest, [s]), [s]) == rest
  {
    assert Tag(s) + Tag(s) + rest == Tag(s) + (Tag(s) + rest);
    StripsFirstScheme(s, Tag(s) + rest, [s]);
    StripsFirstScheme(s, rest, [s]);
  }

  class Router {
    /** The application's URL schemes, read once at start-up in the source. */
    const schemes: seq<string>
    /** The registered patterns. */
    var routeMap: Node

    constructor (schemes: seq<string>)
      ensures this.schemes == schemes && routeMap == Empty
    {
      this.schemes := schemes;
      routeMap := Empty;
    }

    /**
     * `doMap`: register `route` with a controller class or, when there is
     * none, a handler. Re-registering a path traps; so does registering an
     * entry with neither class nor handler at a new path. A trap leaves the
     * trie as it was.
     */
    method DoMap(route: string, cls: Option<ClassName>, handler: Option<Handler>) returns (r: Outcome<()>)
      modifies this
      ensures var comps := Tokenize(route);
        (r == Trapped(Fatal(EntryAlreayExisted)) <==> NodeAt(old(routeMap), comps).Some?) &&
        (r == Trapped(Fatal(InvalidRouteEntry)) <==> NodeAt(old(routeMap), comps).None? && cls.None? && handler.None?) &&
        (r.Done? <==> NodeAt(old(routeMap), comps).None? && (cls.Some? || handler.Some?)) &&
        (r.Trapped? ==> routeMap == old(routeMap)) &&
        (r.Done? ==> Register(old(routeMap), comps, NewEntry(route, cls, handler)) == Done(routeMap))
      ensures var comps := Tokenize(route);
        r.Done? && comps != [] && LastOf(comps) !in comps[..|comps| - 1] ==>
          EntryAt(routeMap, comps) == Some(NewEntry(route, cls, handler)) &&
          (forall q :: q != comps ==> EntryAt(routeMap, q) == EntryAt(old(routeMap), q))
      ensures Unambiguous(old(routeMap)) && AddsNoSecondParam(old(routeMap), Tokenize(route)) ==> Unambiguous(routeMap)
    {
      var entry := NewEntry(route, cls, handler);
      var pathComponents := PathComponentsInRoute(route);
      InsertOutcome(routeMap, pathComponents, LastOf(pathComponents), entry);
      match Register(routeMap, pathComponents, entry)
      case Trapped(x) =>
        r := Trapped(x);
      case Done(t) =>
        if pathComponents != [] && LastOf(pathComponents) !in pathComponents[..|pathComponents| - 1] {
          InsertPlaces(routeMap, pathComponents, LastOf(pathComponents), entry, t);
        }
        if Unambiguous(routeMap) && AddsNoSecondParam(routeMap, pathComponents) {
          InsertKeepsUnambiguous(routeMap, pathComponents, LastOf(pathComponents), entry, t);
        }
        routeMap := t;
        r := Done(());
    }

    /** `removeAllRoutes`: forget every pattern. Doing it twice is doing it once. */
    method RemoveAllRoutes()
      modifies this
      ensures routeMap == Empty
    {
      routeMap := Empty;
    }

    /**
     * `pathComponentsInRoute`: Foundation's components of the route's path,
     * keeping a "/" only in first position.
     */
    method PathComponentsInRoute(route: string) returns (result: seq<string>)
      ensures result == Tokenize(route)
    {
      var path := route;
      if '#' in route {
        path := Before(route, '#');
      }
      if '?' in route {
        path := Before(route, '?');
      }
      var components := PathComponents(path);
      result := [];
      var index := 0;
      while index < |components|
        invariant 0 <= index <= |components|
        invariant result == DropLaterSlashes(components[..index])
      {
        DropStep(components, index);
        if !(index > 0 && components[index] == "/") {
          result := result + [components[index]];
        }
        index := index + 1;
      }
      assert components[..index] == components;
      assert path == CutPath(route);
    }

    /** `paramsFromQuery`: the bindings of the `&`-separated pieces, later ones winning. */
    method ParamsFromQuery(query: string) returns (params: Params)
      ensures params == QueryParams(query)
    {
      params := map[];
      var paramArray := Split(query, '&');
      var i := 0;
      while i < |paramArray|
        invariant 0 <= i <= |paramArray|
        invariant params == PiecesParams(paramArray[..i])
      {
        assert paramArray[..i + 1][..i] == paramArray[..i];
        var kv := Split(paramArray[i], '=');
        if |kv| >= 2 {
          params := params[kv[0] := kv[1]];
        }
        i := i + 1;
      }
      assert paramArray[..i] == paramArray;
    }

    /**
     * `findRouteEntry`: walk the trie along the components of the route
     * (scheme tag removed), binding dynamic segments into `params`.
     */
    method FindRouteEntry(route: string, params: Params) returns (found: Lookup)
      requires Unambiguous(routeMap)
      ensures found == Find(routeMap, schemes, route, params)
    {
      var pathComponents := PathComponentsInRoute(FilterAppSchemes(route, schemes));
      var last := LastOf(pathComponents);
      var subRoutes := routeMap;
      var p := params;
      var i := 0;
      while i < |pathComponents|
        invariant 0 <= i <= |pathComponents|
        invariant Unambiguous(subRoutes)
        invariant Walk(subRoutes, pathComponents[i..], last, p) == Find(routeMap, schemes, route, params)
      {
        var pathComponent := pathComponents[i];
        ghost var here, p0 := subRoutes, p;
        assert pathComponents[i..][1..] == pathComponents[i + 1..];
        var keys := subRoutes.children.Keys;
        while keys != {}
          invariant subRoutes == here && p == p0
          invariant keys <= here.children.Keys
          invariant pathComponent in here.children ==> keys == here.children.Keys
          invariant forall k :: k in here.children.Keys - keys ==> !IsParam(k)
          decreases keys
        {
          var k :| k in keys;
          if pathComponent in subRoutes.children {
            if pathComponent == last {
              var entry := subRoutes.children[pathComponent].entry;
              if entry.None? {
                return Lookup(Trapped(ForceCast), p);
              }
              return Lookup(Done(entry), p);
            }
            subRoutes := subRoutes.children[pathComponent];
            break;
          }
          if IsParam(k) {
            assert k == DynamicKey(here);
            p := p[k[1..] := pathComponent];
            if pathComponent == last {
              return Lookup(Done(subRoutes.children[k].entry), p);
            }
            subRoutes := subRoutes.children[k];
            break;
          }
          keys := keys - {k};
        }
        assert subRoutes == here ==> !HasParamChild(here) && pathComponent !in here.children;
        i := i + 1;
      }
      return Lookup(Done(None), p);
    }

    /**
     * `paramsInRoute`: the path bindings of the route, then the fragment's
     * parameters, then the query's, each overwriting the ones before.
     */
    method ParamsInRoute(route: string) returns (r: Outcome<Params>)
      requires Unambiguous(routeMap)
      ensures r == RouteParams(routeMap, schemes, route)
    {
      var found := FindRouteEntry(FilterAppSchemes(route, schemes), map[]);
      if found.result.Trapped? {
        return Trapped(found.result.trap);
      }
      var params := AddQueryAndFragment(found.params, route);
      r := Done(params);
    }

    /** The second half of `paramsInRoute`: the fragment's parameters, then the query's, written over `params`. */
    method AddQueryAndFragment(params: Params, route: string) returns (r: Params)
      ensures r == params + FragmentParams(route) + QueryPartParams(route)
    {
      r := params;
      var path := route;
      if '#' in path {
        var fragment := ParamsFromQuery(After(path, '#'));
        r := Overwrite(r, fragment);
        path := Before(path, '#');
      } else {
        UnionEmpty(r);
      }
      assert path == Before(route, '#');
      if '?' in path {
        var query := ParamsFromQuery(After(path, '?'));
        r := Overwrite(r, query);
      } else {
        UnionEmpty(r);
      }
    }

    /** `matchHandler`: the handler of the entry the route resolves to, if any. */
    method MatchHandler(route: string) returns (r: Outcome<Option<Handler>>)
      requires Unambiguous(routeMap)
      ensures match Find(routeMap, schemes, route, map[]).result
        case Trapped(x) => r == Trapped(x)
        case Done(None) => r == Done(None)
        case Done(Some(e)) => r == Done(e.handler)
    {
      var a := map[];
      var found := FindRouteEntry(route, a);
      match found.result
      case Trapped(x) => r := Trapped(x);
      case Done(None) => r := Done(None);
      case Done(Some(entry)) => r := Done(entry.handler);
    }

    /**
     * `routeURL`: run the handler the route resolves to with the route's
     * parameters and report its result; false when the route resolves to no
     * entry or to an entry without a handler.
     */
    method RouteURL(route: string) returns (r: Outcome<bool>)
      requires Unambiguous(routeMap)
      ensures match Find(routeMap, schemes, route, map[]).result
        case Trapped(x) => r == Trapped(x)
        case Done(None) => r == Done(false)
        case Done(Some(e)) =>
          match e.handler
          case None => r == Done(false)
          case Some(h) =>
            match RouteParams(routeMap, schemes, route)
            case Trapped(x) => r == Trapped(x)
            case Done(params) => r == Done(h(params))
    {
      var handler := MatchHandler(route);
      match handler
      case Trapped(x) => r := Trapped(x);
      case Done(None) => r := Done(false);
      case Done(Some(h)) =>
        var params := ParamsInRoute(route);
        match params
        case Trapped(x) => r := Trapped(x);
        case Done(ps) => r := Done(h(ps));
    }

    /**
     * The part of `matchController` before the controller is instantiated:
     * the class of the entry the route resolves to and the parameters its
     * properties would be set from, which are `paramsInRoute`'s parameters
     * overwritten again by the path bindings of a second lookup. An entry
     * without a class traps on the forced unwrap.
     */
    method MatchController(route: string) returns (r: Outcome<Option<(ClassName, Params)>>)
      requires Unambiguous(routeMap)
      ensures match RouteParams(routeMap, schemes, route)
        case Trapped(x) => r == Trapped(x)
        case Done(params) =>
          var found := Find(routeMap, schemes, route, params);
          match found.result
          case Trapped(x) => r == Trapped(x)
          case Done(None) => r == Done(None)
          case Done(Some(e)) => r == if e.klass.None? then Trapped(ForceUnwrap) else Done(Some((e.klass.value, found.params)))
    {
      var params := ParamsInRoute(route);
      if params.Trapped? {
        return Trapped(params.trap);
      }
      var found := FindRouteEntry(route, params.value);
      match found.result
      case Trapped(x) => r := Trapped(x);
      case Done(None) => r := Done(None);
      case Done(Some(entry)) =>
        if entry.klass.None? {
          r := Trapped(ForceUnwrap);
        } else {
          r := Done(Some((entry.klass.value, found.params)));
        }
    }
  }
}
