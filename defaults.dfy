/** The default ports both clients choose from when the caller gives none. */
module Defaults {

  /** The plain-text API port. */
  const Port: int := 8728

  /** The API-SSL port. */
  const SslPort: int := 8729

  /**
   * The constructor's port logic: a truthy `port` is kept, otherwise the
   * default for the transport. Python's falsy port values (False, None, 0)
   * are all written 0 here.
   */
  function SelectPort(port: int, useSsl: bool): (r: int)
    ensures r != 0
    ensures port != 0 ==> r == port
    ensures port == 0 ==> (r == SslPort <==> useSsl) && (r == Port <==> !useSsl)
  {
    if port != 0 then port else if useSsl then SslPort else Port
  }
}
