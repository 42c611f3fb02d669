/** `DomainStatus`: the four outcomes of a registry query and the fixed table
    from the registry's integer reply code to them. */
module Status {
  import opened Common

  datatype DomainStatus = Available | Registered | RateLimited | Error

  /** The reply code the scanner records when a reply cannot be read as
      `<code>:<message>`. */
  const Sentinel: i32 := -99

  /** `from_reply_code`: 1 means available, 0 registered, -95 rate limited,
      and every other code an error. */
  function FromReplyCode(code: i32): (status: DomainStatus)
    ensures status == Available <==> code == 1
    ensures status == Registered <==> code == 0
    ensures status == RateLimited <==> code == -95
    ensures status == Error <==> code != 1 && code != 0 && code != -95
  {
    match code
    case 1 => Available
    case 0 => Registered
    case -95 => RateLimited
    case _ => Error
  }

  /** `as_str`: the lower-case name of a status. */
  function AsStr(status: DomainStatus): (name: string)
    ensures |name| > 0
  {
    match status
    case Available => "available"
    case Registered => "registered"
    case RateLimited => "rate_limited"
    case Error => "error"
  }

  /** The name identifies the status: two different statuses never share a name. */
  lemma AsStrInjective(s: DomainStatus, t: DomainStatus)
    requires AsStr(s) == AsStr(t)
    ensures s == t
  {
  }

  /** The sentinel is not a code the table gives a meaning to. */
  lemma SentinelIsError()
    ensures FromReplyCode(Sentinel) == Error
  {
  }
}
