/**
 * Results of the router's operations. The source stops the process in four
 * places; each is an explicit `Trapped` outcome here, tagged with its cause.
 */
module Outcomes {

  datatype Option<+T> = None | Some(value: T)

  /** The router's error cases, with the source's own spelling. */
  datatype RouterError = SchemeNotRecognized | EntryAlreayExisted | InvalidRouteEntry

  /** The text `fatalError` is called with. */
  function Message(e: RouterError): string
  {
    match e
    case SchemeNotRecognized => "SchemeNotRecognized"
    case EntryAlreayExisted => "EntryAlreayExisted"
    case InvalidRouteEntry => "InvalidRouteEntry"
  }

  /** Each error has its own message, so a trap's text names its cause. */
  lemma MessageInjective(e1: RouterError, e2: RouterError)
    ensures Message(e1) == Message(e2) <==> e1 == e2
  {
  }

  /**
   * Why the process stops: `fatalError` with an error's message, a forced
   * cast `as!` of a missing value, or a forced unwrap `!` of a missing value.
   */
  datatype Trap = Fatal(error: RouterError) | ForceCast | ForceUnwrap

  /** A value, or the trap that ended the process before one was produced. */
  datatype Outcome<+T> = Done(value: T) | Trapped(trap: Trap)
}
