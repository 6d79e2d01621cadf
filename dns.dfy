/**
 * What a DNS lookup can come back with. The resolvers themselves (dnspython,
 * the upstream nameservers, timeouts) are not modelled: every lookup in the
 * pipeline receives its answers from a lookup function passed in as a
 * parameter, which stands for "what the network answered this time".
 */
module Dns {

  datatype RecordType = MX | A | TXT

  /**
   * The outcome of `resolver.resolve(name, type)`: the answer's records, or
   * the exception it raises. `T` is the record data as the caller reads it:
   * the text of an MX exchange or an A address, or the character-strings of
   * a TXT record.
   */
  datatype Response<T> = Answer(rrs: seq<T>) | NxDomain | NoAnswer | Timeout | OtherError

  /** A lookup of one record type: the response each name gets. */
  type Lookup<T> = string -> Response<T>

  /**
   * dnspython never hands back an empty answer: a response without records of
   * the asked type raises `NoAnswer`. An `Answer([])` from a lookup function
   * is read the same way.
   */
  function Resolve<T>(lookup: Lookup<T>, name: string): (r: Response<T>)
    ensures r.Answer? ==> |r.rrs| > 0 && r == lookup(name)
    ensures !r.Answer? ==> r == (if lookup(name).Answer? then NoAnswer else lookup(name))
  {
    match lookup(name)
    case Answer(rrs) => if |rrs| == 0 then NoAnswer else Answer(rrs)
    case other => other
  }

  /** `resolve` returned without raising. */
  predicate Resolves<T>(lookup: Lookup<T>, name: string)
  {
    Resolve(lookup, name).Answer?
  }
}
