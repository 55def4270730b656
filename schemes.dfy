/**
 * Stripping a recognised application URL scheme off a route
 * (`String.stringByFilterAppSchemes`). The scheme list, which the source
 * reads once from the application bundle, is a parameter.
 */
module Schemes {
  import opened Text

  /** The prefix a scheme is recognised by: the scheme followed by a colon. */
  function Tag(scheme: string): string {
    scheme + ":"
  }

  /**
   * The route without the tag of the first listed scheme that prefixes it;
   * the route itself when none does.
   */
  function FilterAppSchemes(route: string, schemes: seq<string>): (r: string)
    ensures (forall i :: 0 <= i < |schemes| ==> !HasPrefix(route, Tag(schemes[i]))) ==> r == route
    ensures forall i :: 0 <= i < |schemes| && HasPrefix(route, Tag(schemes[i])) &&
              (forall j :: 0 <= j < i ==> !HasPrefix(route, Tag(schemes[j])))
              ==> r == route[|schemes[i]| + 1..]
    decreases |schemes|
  {
    if schemes == [] then route
    else if HasPrefix(route, Tag(schemes[0])) then route[|schemes[0]| + 1..]
    else
      var r := FilterAppSchemes(route, schemes[1..]);
      assert forall i :: 1 <= i < |schemes| ==> schemes[1..][i - 1] == schemes[i];
      r
  }

  /** Filtering only ever removes a prefix of the route. */
  lemma {:induction false} FilterIsSuffix(route: string, schemes: seq<string>)
    ensures exists p :: route == p + FilterAppSchemes(route, schemes)
    decreases |schemes|
  {
    if schemes == [] {
      assert route == [] + route;
    } else if HasPrefix(route, Tag(schemes[0])) {
      assert FilterAppSchemes(route, schemes) == route[|schemes[0]| + 1..];
      assert route == route[..|schemes[0]| + 1] + route[|schemes[0]| + 1..];
    } else {
      FilterIsSuffix(route, schemes[1..]);
    }
  }

  /** A route tagged with a listed scheme loses exactly the tag, even when later schemes also match. */
  lemma StripsFirstScheme(scheme: string, rest: string, schemes: seq<string>)
    requires |schemes| > 0 && schemes[0] == scheme
    ensures FilterAppSchemes(Tag(scheme) + rest, schemes) == rest
  {
    var route := Tag(scheme) + rest;
    assert route[..|Tag(scheme)|] == Tag(scheme);
    assert route[|scheme| + 1..] == rest;
  }

  /** A second pass is a no-op when the first result carries no listed tag. */
  lemma FilterTwice(route: string, schemes: seq<string>)
    requires forall i :: 0 <= i < |schemes| ==> !HasPrefix(FilterAppSchemes(route, schemes), Tag(schemes[i]))
    ensures FilterAppSchemes(FilterAppSchemes(route, schemes), schemes) == FilterAppSchemes(route, schemes)
  {
  }
}
