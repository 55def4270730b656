/**
 * Key/value parameters of a query or fragment (`Router.paramsFromQuery`):
 * the text is cut at every `&`, each piece at every `=`, and a piece with at
 * least two parts binds its first part to its second. Nothing is
 * percent-decoded.
 */
module Query {
  import opened Text

  /** A parameter mapping: one value per key, the last write winning. */
  type Params = map<string, string>

  /** The mapping built from the pieces in order, each binding piece overwriting the key's earlier value. */
  function PiecesParams(pieces: seq<string>): Params
    decreases |pieces|
  {
    if pieces == [] then map[]
    else
      var m := PiecesParams(pieces[..|pieces| - 1]);
      var kv := Split(pieces[|pieces| - 1], '=');
      if |kv| >= 2 then m[kv[0] := kv[1]] else m
  }

  /** The parameters of a query or fragment text. */
  function QueryParams(query: string): Params {
    PiecesParams(Split(query, '&'))
  }

  /** A piece binds `k` when it has an `=` and `k` is the text before the first one. */
  predicate Binds(piece: string, k: string) {
    '=' in piece && Before(piece, '=') == k
  }

  /** The value a binding piece gives: the text between its first and second `=`. */
  function ValueOf(piece: string): string {
    Before(After(piece, '='), '=')
  }

  /** What one piece contributes, stated without `Split`. */
  lemma PieceMeaning(piece: string)
    ensures var kv := Split(piece, '=');
      (|kv| >= 2 <==> '=' in piece) &&
      ('=' in piece ==> Binds(piece, kv[0]) && kv[1] == ValueOf(piece))
  {
    SplitHead(piece, '=');
    if '=' in piece {
      SplitHead(After(piece, '='), '=');
    }
  }

  /** The last piece decides a key it binds; any other key keeps its value from the earlier pieces. */
  lemma PiecesStep(pieces: seq<string>, k: string)
    requires pieces != []
    ensures var init, last := pieces[..|pieces| - 1], pieces[|pieces| - 1];
      var m, m0 := PiecesParams(pieces), PiecesParams(init);
      (k in m <==> k in m0 || Binds(last, k)) &&
      (k in m ==> m[k] == if Binds(last, k) then ValueOf(last) else m0[k])
  {
    PieceMeaning(pieces[|pieces| - 1]);
  }

  /** Piece `i` binds `k` and no later piece does. */
  predicate LastBinding(pieces: seq<string>, k: string, i: int) {
    0 <= i < |pieces| && Binds(pieces[i], k) && forall j :: i < j < |pieces| ==> !Binds(pieces[j], k)
  }

  /**
   * A key is bound exactly when some piece binds it, and its value is the one
   * given by the last piece that binds it: pieces without `=` are ignored and
   * a later duplicate overwrites an earlier one.
   */
  lemma PiecesParamsMeaning(pieces: seq<string>, k: string)
    ensures k in PiecesParams(pieces) <==> exists i :: 0 <= i < |pieces| && Binds(pieces[i], k)
    ensures k in PiecesParams(pieces) ==>
      exists i :: LastBinding(pieces, k, i) && PiecesParams(pieces)[k] == ValueOf(pieces[i])
  {
    PiecesBound(pieces, k);
    if k in PiecesParams(pieces) {
      var i := PiecesValue(pieces, k);
    }
  }

  lemma {:induction false} PiecesBound(pieces: seq<string>, k: string)
    ensures k in PiecesParams(pieces) <==> exists i :: 0 <= i < |pieces| && Binds(pieces[i], k)
    decreases |pieces|
  {
    if pieces != [] {
      var n := |pieces|;
      var init := pieces[..n - 1];
      PiecesStep(pieces, k);
      PiecesBound(init, k);
      if exists i :: 0 <= i < n && Binds(pieces[i], k) {
        var i :| 0 <= i < n && Binds(pieces[i], k);
        if i < n - 1 { assert init[i] == pieces[i]; }
      }
      if exists i :: 0 <= i < n - 1 && Binds(init[i], k) {
        var i :| 0 <= i < n - 1 && Binds(init[i], k);
        assert pieces[i] == init[i];
      }
    }
  }

  /** The piece a bound key's value comes from. */
  lemma {:induction false} PiecesValue(pieces: seq<string>, k: string) returns (i: int)
    requires k in PiecesParams(pieces)
    ensures LastBinding(pieces, k, i) && PiecesParams(pieces)[k] == ValueOf(pieces[i])
    decreases |pieces|
  {
    var n := |pieces|;
    var init, last := pieces[..n - 1], pieces[n - 1];
    PiecesStep(pieces, k);
    if Binds(last, k) {
      i := n - 1;
    } else {
      i := PiecesValue(init, k);
      assert init[i] == pieces[i];
      forall j | i < j < n
        ensures !Binds(pieces[j], k)
      {
        if j < n - 1 { assert init[j] == pieces[j]; }
      }
    }
  }

  /** The same, for a whole query text. */
  lemma QueryParamsMeaning(query: string, k: string)
    ensures var ps := Split(query, '&');
      (k in QueryParams(query) <==> exists i :: 0 <= i < |ps| && Binds(ps[i], k)) &&
      (k in QueryParams(query) ==> exists i :: LastBinding(ps, k, i) && QueryParams(query)[k] == ValueOf(ps[i]))
  {
    PiecesParamsMeaning(Split(query, '&'), k);
  }

  /**
   * The query shape of the tests (`username=hello&password=123&foo`): two
   * bindings and a piece without `=`, which binds nothing.
   */
  lemma TwoBindingsAndPlain(k1: string, v1: string, k2: string, v2: string, p: string)
    requires '=' !in k1 && '=' !in v1 && '=' !in k2 && '=' !in v2 && '=' !in p
    requires '&' !in k1 + "=" + v1 && '&' !in k2 + "=" + v2 && '&' !in p
    ensures QueryParams(k1 + "=" + v1 + "&" + (k2 + "=" + v2) + "&" + p) == map[k1 := v1, k2 := v2]
  {
    var p1, p2 := k1 + "=" + v1, k2 + "=" + v2;
    var ps := [p1, p2, p];
    JoinThree(p1, p2, p, '&');
    QueryOfJoin(ps, k1 + "=" + v1 + "&" + (k2 + "=" + v2) + "&" + p);
    assert ps == [] + [p1] + [p2] + [p];
    AppendBinding([], k1, v1);
    AppendBinding([p1], k2, v2);
    AppendPlain([p1, p2], p);
    assert [] + [p1] == [p1] && [p1] + [p2] == [p1, p2];
  }

  /** A query joined from `&`-free pieces has those pieces' parameters. */
  lemma QueryOfJoin(ps: seq<string>, query: string)
    requires |ps| >= 1 && query == Join(ps, '&')
    requires forall i :: 0 <= i < |ps| ==> '&' !in ps[i]
    ensures QueryParams(query) == PiecesParams(ps)
  {
    SplitJoin(ps, '&');
  }

  lemma JoinThree(a: string, b: string, c: string, sep: char)
    ensures Join([a, b, c], sep) == a + [sep] + b + [sep] + c
  {
    assert [a, b, c][1..] == [b, c] && [b, c][1..] == [c];
    assert Join([c], sep) == c;
    assert Join([b, c], sep) == b + [sep] + c;
    assert Join([a, b, c], sep) == a + [sep] + (b + [sep] + c);
    assert a + [sep] + (b + [sep] + c) == a + [sep] + b + [sep] + c;
  }

  lemma AppendBinding(init: seq<string>, k: string, v: string)
    requires '=' !in k && '=' !in v
    ensures PiecesParams(init + [k + "=" + v]) == PiecesParams(init)[k := v]
  {
    PieceSplit(k, v);
    assert (init + [k + "=" + v])[..|init|] == init;
  }

  lemma AppendPlain(init: seq<string>, piece: string)
    requires '=' !in piece
    ensures PiecesParams(init + [piece]) == PiecesParams(init)
  {
    SplitNoSeparator(piece, '=');
    assert (init + [piece])[..|init|] == init;
  }

  lemma PieceSplit(k: string, v: string)
    requires '=' !in k && '=' !in v
    ensures Split(k + "=" + v, '=') == [k, v]
  {
    FirstPiece(k, v, '=');
    SplitNoSeparator(v, '=');
  }

  /**
   * `params` with every binding of `extra` written over it, as the loops of
   * `paramsInRoute` do: `extra` wins on a shared key.
   */
  method Overwrite(params: Params, extra: Params) returns (r: Params)
    ensures r.Keys == params.Keys + extra.Keys
    ensures forall k :: k in r ==> r[k] == if k in extra then extra[k] else params[k]
    ensures r == params + extra
  {
    r := params;
    var todo := extra.Keys;
    while todo != {}
      invariant todo <= extra.Keys
      invariant r.Keys == params.Keys + (extra.Keys - todo)
      invariant forall k :: k in r ==> r[k] == if k in extra && k !in todo then extra[k] else params[k]
      decreases todo
    {
      var k :| k in todo;
      r := r[k := extra[k]];
      todo := todo - {k};
    }
    assert r.Keys == (params + extra).Keys;
  }
}
