/**
 * Splitting a route into the path components the trie is keyed by
 * (`Router.pathComponentsInRoute`), with Foundation's
 * `NSString.pathComponents` given an abstract definition.
 */
module Tokenizer {
  import opened Text

  /**
   * The part of a route the path is read from. Both cuts are taken from the
   * whole route, the `?` one last, so a `?` anywhere (even inside the
   * fragment) decides; without a `?` the path ends at the first `#`.
   */
  function CutPath(route: string): (p: string)
    ensures HasPrefix(route, p) && '?' !in p
    ensures '?' !in route ==> '#' !in p
  {
    if '?' in route then Before(route, '?') else Before(route, '#')
  }

  /** The pieces that are not empty, in order. */
  function NonEmpty(ps: seq<string>): (r: seq<string>)
    ensures forall i :: 0 <= i < |r| ==> r[i] != [] && r[i] in ps
  {
    if ps == [] then []
    else (if ps[0] == [] then [] else [ps[0]]) + NonEmpty(ps[1..])
  }

  /** A directory name: a component that is neither empty nor contains the separator. */
  predicate IsName(c: string) {
    c != [] && '/' !in c
  }

  /** The names of a path: its non-empty `/`-separated pieces. */
  function Names(path: string): (r: seq<string>)
    ensures forall i :: 0 <= i < |r| ==> IsName(r[i])
  {
    NonEmpty(Split(path, '/'))
  }

  /** The root marker that starts the components of an absolute path. */
  function Lead(path: string): seq<string> {
    if |path| > 0 && path[0] == '/' then ["/"] else []
  }

  /**
   * Foundation's `NSString.pathComponents`: "/" first for an absolute path,
   * then the names, then "/" again when the path ends in a separator after
   * at least one name.
   */
  function PathComponents(path: string): seq<string> {
    var names := Names(path);
    Lead(path) + names + (if names != [] && |path| > 0 && path[|path| - 1] == '/' then ["/"] else [])
  }

  /** The components kept by the tokenizer's loop: the first one always, a later one unless it is "/". */
  function DropLaterSlashes(cs: seq<string>): seq<string> {
    if |cs| <= 1 then cs
    else DropLaterSlashes(cs[..|cs| - 1]) + (if cs[|cs| - 1] == "/" then [] else [cs[|cs| - 1]])
  }

  /** One step of the tokenizer's loop: the next component is kept unless it is a later "/". */
  lemma DropStep(cs: seq<string>, i: nat)
    requires i < |cs|
    ensures DropLaterSlashes(cs[..i + 1]) == DropLaterSlashes(cs[..i]) + (if i > 0 && cs[i] == "/" then [] else [cs[i]])
  {
    assert cs[..i + 1][..i] == cs[..i];
    if i == 0 {
      assert cs[..1] == [cs[0]];
    }
  }

  /** The path components of a route, as `pathComponentsInRoute` returns them. */
  function Tokenize(route: string): seq<string> {
    DropLaterSlashes(PathComponents(CutPath(route)))
  }

  lemma {:induction false} DropKeepsNames(lead: seq<string>, names: seq<string>)
    requires |lead| <= 1
    requires forall i :: 0 <= i < |names| ==> IsName(names[i])
    ensures DropLaterSlashes(lead + names) == lead + names
    decreases |names|
  {
    var cs := lead + names;
    if names == [] {
      assert cs == lead;
    } else if |cs| > 1 {
      var n := |names|;
      var init := names[..n - 1];
      assert cs[..|cs| - 1] == lead + init;
      assert cs[|cs| - 1] == names[n - 1];
      DropKeepsNames(lead, init);
      assert names[n - 1] != "/" by { assert '/' in "/"; }
      assert lead + init + [names[n - 1]] == cs;
    }
  }

  /**
   * The tokenizer's result is the root marker of an absolute path followed by
   * the path's names: a trailing separator's "/" component never survives.
   */
  lemma TokenizeShape(route: string)
    ensures Tokenize(route) == Lead(CutPath(route)) + Names(CutPath(route))
  {
    ComponentsShape(CutPath(route));
  }

  lemma ComponentsShape(p: string)
    ensures DropLaterSlashes(PathComponents(p)) == Lead(p) + Names(p)
  {
    var lead, names := Lead(p), Names(p);
    DropKeepsNames(lead, names);
    if names != [] && |p| > 0 && p[|p| - 1] == '/' {
      var cs := lead + names + ["/"];
      assert PathComponents(p) == cs;
      assert cs[..|cs| - 1] == lead + names;
    } else {
      assert PathComponents(p) == lead + names + [];
      assert lead + names + [] == lead + names;
    }
  }

  /** Every component is a name, except a leading "/", which appears exactly for an absolute path. */
  lemma TokenizeComponents(route: string)
    ensures var t, p := Tokenize(route), CutPath(route);
      (|t| > 0 && t[0] == "/" <==> |p| > 0 && p[0] == '/') &&
      (forall i :: 0 <= i < |t| && t[i] != "/" ==> IsName(t[i])) &&
      (forall i :: 0 < i < |t| ==> t[i] != "/")
  {
    TokenizeShape(route);
    var t, p := Tokenize(route), CutPath(route);
    assert forall i :: 0 <= i < |t| && IsName(t[i]) ==> t[i] != "/" by { assert '/' in "/"; }
  }

  lemma {:induction false} NonEmptyAppend(a: seq<string>, b: seq<string>)
    ensures NonEmpty(a + b) == NonEmpty(a) + NonEmpty(b)
    decreases |a|
  {
    if a == [] {
      assert a + b == b;
    } else {
      assert (a + b)[1..] == a[1..] + b;
      NonEmptyAppend(a[1..], b);
    }
  }

  /** A trailing separator adds nothing: `/n1/.../nk/` tokenizes like `/n1/.../nk`. */
  lemma TrailingSlash(names: seq<string>)
    requires names != []
    requires forall i :: 0 <= i < |names| ==> IsName(names[i]) && '?' !in names[i] && '#' !in names[i]
    ensures Tokenize("/" + Join(names, '/') + "/") == Tokenize("/" + Join(names, '/')) == ["/"] + names
  {
    var path := "/" + Join(names, '/') + "/";
    TrailingNames(names);
    JoinAvoids(names, '/', '?');
    JoinAvoids(names, '/', '#');
    assert path == ("/" + Join(names, '/')) + "/";
    assert '?' !in path && '#' !in path;
    assert Lead(path) == ["/"];
    TokenizeShape(path);
    TokenizeAbsolute(names);
  }

  /** The names of `/n1/.../nk/` are n1, ..., nk. */
  lemma TrailingNames(names: seq<string>)
    requires names != []
    requires forall i :: 0 <= i < |names| ==> IsName(names[i])
    ensures Names("/" + Join(names, '/') + "/") == names
  {
    var ps := [""] + names + [""];
    TrailingJoin(names);
    PaddedPieces(names);
    NamesOfJoin(ps, "/" + Join(names, '/') + "/");
  }

  /** The pieces of a text joined from separator-free pieces are those pieces. */
  lemma NamesOfJoin(ps: seq<string>, path: string)
    requires |ps| >= 1 && path == Join(ps, '/')
    requires forall i :: 0 <= i < |ps| ==> '/' !in ps[i]
    ensures Names(path) == NonEmpty(ps)
  {
    SplitJoin(ps, '/');
  }

  /** The empty pieces around the names are separator-free and dropped. */
  lemma PaddedPieces(names: seq<string>)
    requires forall i :: 0 <= i < |names| ==> IsName(names[i])
    ensures var ps := [""] + names + [""];
      (forall i :: 0 <= i < |ps| ==> '/' !in ps[i]) && NonEmpty(ps) == names
  {
    var ps := [""] + names + [""];
    forall i | 0 <= i < |ps| ensures '/' !in ps[i] {
      if 0 < i < |ps| - 1 { assert ps[i] == names[i - 1]; }
    }
    NonEmptyAppend([""] + names, [""]);
    NonEmptyAppend([""], names);
    NonEmptyNames(names);
    assert NonEmpty([""]) == [];
  }

  lemma TrailingJoin(names: seq<string>)
    requires names != []
    ensures Join([""] + names + [""], '/') == "/" + Join(names, '/') + "/"
  {
    JoinCons("", names, '/');
    JoinSnoc([""] + names, "", '/');
  }

  /**
   * Nothing from the first `?` onward reaches the components, even when a
   * `#` comes before it; without a `#` they are those of the path alone.
   */
  lemma QueryIgnored(path: string, query: string)
    requires '?' !in path
    ensures Tokenize(path + "?" + query) == Lead(path) + Names(path)
    ensures '#' !in path ==> Tokenize(path + "?" + query) == Tokenize(path)
  {
    FirstOccurrence(path, '?', query);
    TokenizeShape(path + "?" + query);
    if '#' !in path {
      TokenizeShape(path);
    }
  }

  /** Without a `?`, nothing from the first `#` onward reaches the components. */
  lemma FragmentIgnored(path: string, fragment: string)
    requires '?' !in path && '#' !in path && '?' !in fragment
    ensures Tokenize(path + "#" + fragment) == Tokenize(path)
  {
    var r := path + "#" + fragment;
    FirstOccurrence(path, '#', fragment);
    assert '?' !in r by { assert forall i :: 0 <= i < |r| ==> r[i] == if i < |path| then path[i] else if i == |path| then '#' else fragment[i - |path| - 1]; }
  }

  /** A `?` inside the fragment still wins: in `/a#f?c` the text `a#f` is a component. */
  lemma QuestionMarkInFragment(a: string, f: string, c: string)
    requires IsName(a) && '?' !in a && '#' !in a && '/' !in f && '?' !in f
    ensures Tokenize("/" + a + "#" + f + "?" + c) == ["/", a + "#" + f]
  {
    var name := a + "#" + f;
    assert '/' !in name && '?' !in name by {
      assert forall i :: 0 <= i < |name| ==> name[i] == if i < |a| then a[i] else if i == |a| then '#' else f[i - |a| - 1];
    }
    var path := "/" + name;
    assert Join([name], '/') == name;
    AbsoluteNames([name]);
    FirstOccurrence(path, '?', c);
    var route := "/" + a + "#" + f + "?" + c;
    assert route == path + "?" + c;
    assert CutPath(route) == path;
    TokenizeShape(route);
  }

  /**
   * The root route is the single root component; so is any route of
   * separators only (`//` included).
   */
  lemma RootRoute(route: string)
    requires route != [] && forall i :: 0 <= i < |route| ==> route[i] == '/'
    ensures Tokenize(route) == ["/"]
  {
    assert '?' !in route && '#' !in route;
    assert CutPath(route) == route;
    OnlySeparators(route);
    TokenizeShape(route);
  }

  /** A text of separators only has no names. */
  lemma {:induction false} OnlySeparators(s: string)
    requires forall i :: 0 <= i < |s| ==> s[i] == '/'
    ensures Names(s) == []
    decreases |s|
  {
    if s != [] {
      assert s == [s[0]] + s[1..];
      SplitCons('/', s[1..], '/');
      OnlySeparators(s[1..]);
    }
  }

  /**
   * A separator just before the query changes nothing: `/user/1/?username=hello`
   * has the components of `/user/1`.
   */
  lemma SlashBeforeQuery(names: seq<string>, query: string)
    requires names != []
    requires forall i :: 0 <= i < |names| ==> IsName(names[i]) && '?' !in names[i] && '#' !in names[i]
    ensures Tokenize("/" + Join(names, '/') + "/" + "?" + query) == Tokenize("/" + Join(names, '/')) == ["/"] + names
  {
    var p := "/" + Join(names, '/') + "/";
    PaddedAvoids(names, '?');
    PaddedAvoids(names, '#');
    QueryIgnored(p, query);
    TrailingSlash(names);
  }

  /** A character other than the separator that no name holds is not in `/n1/.../nk/`. */
  lemma PaddedAvoids(names: seq<string>, c: char)
    requires c != '/' && forall i :: 0 <= i < |names| ==> c !in names[i]
    ensures c !in "/" + Join(names, '/') + "/"
  {
    JoinAvoids(names, '/', c);
  }

  lemma UserOne()
    ensures Tokenize("/user/1") == ["/", "user", "1"]
  {
    var names := ["user", "1"];
    assert names[1..] == ["1"];
    assert Join(names, '/') == "user" + "/" + "1";
    assert "/user/1" == "/" + Join(names, '/');
    TokenizeAbsolute(names);
  }

  /** No piece holds `c`, so neither does their join with another separator. */
  lemma {:induction false} JoinAvoids(ps: seq<string>, sep: char, c: char)
    requires c != sep && forall i :: 0 <= i < |ps| ==> c !in ps[i]
    ensures c !in Join(ps, sep)
    decreases |ps|
  {
    if |ps| > 1 {
      JoinAvoids(ps[1..], sep, c);
    }
  }

  /** An absolute path of names tokenizes to the root marker followed by the names. */
  lemma TokenizeAbsolute(names: seq<string>)
    requires names != []
    requires forall i :: 0 <= i < |names| ==> IsName(names[i]) && '?' !in names[i] && '#' !in names[i]
    ensures Tokenize("/" + Join(names, '/')) == ["/"] + names
  {
    var path := "/" + Join(names, '/');
    AbsoluteNames(names);
    JoinAvoids(names, '/', '?');
    JoinAvoids(names, '/', '#');
    assert '?' !in path && '#' !in path;
    assert CutPath(path) == path;
    TokenizeShape(path);
  }

  lemma AbsoluteNames(names: seq<string>)
    requires names != []
    requires forall i :: 0 <= i < |names| ==> IsName(names[i])
    ensures Lead("/" + Join(names, '/')) == ["/"] && Names("/" + Join(names, '/')) == names
  {
    SlashJoin(names);
    PrefixedPieces(names);
    NamesOfJoin([""] + names, "/" + Join(names, '/'));
  }

  /** An empty first piece joins to a leading separator. */
  lemma SlashJoin(names: seq<string>)
    requires names != []
    ensures Join([""] + names, '/') == "/" + Join(names, '/')
  {
    JoinCons("", names, '/');
    assert "" + ['/'] == "/";
  }

  /** The empty piece before the names is separator-free and dropped. */
  lemma PrefixedPieces(names: seq<string>)
    requires forall i :: 0 <= i < |names| ==> IsName(names[i])
    ensures var ps := [""] + names;
      (forall i :: 0 <= i < |ps| ==> '/' !in ps[i]) && NonEmpty(ps) == names
  {
    var ps := [""] + names;
    forall i | 0 <= i < |ps| ensures '/' !in ps[i] {
      if i > 0 { assert ps[i] == names[i - 1]; }
    }
    NonEmptyAppend([""], names);
    NonEmptyNames(names);
    assert NonEmpty([""]) == [];
  }

  lemma {:induction false} NonEmptyNames(names: seq<string>)
    requires forall i :: 0 <= i < |names| ==> IsName(names[i])
    ensures NonEmpty(names) == names
    decreases |names|
  {
    if names != [] {
      NonEmptyNames(names[1..]);
    }
  }
}
