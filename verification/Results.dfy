/** What operations give back: a value or none, where a route goes, and the status of a change to a table of routes. */
module Results {

  datatype Option<+T> = None | Some(value: T)

  /** A gateway and an output port. */
  datatype Hop = Hop(gw: int, port: int)

  /** 0, `-EEXIST`, `-ENOENT`, `-ENOMEM`, and `-EINVAL` for a line that cannot be read. */
  datatype Status = Ok | Exists | NoEntry | NoMemory | Invalid
}
