/** Types shared by every protocol module. */
module Common {

  datatype Option<+T> = None | Some(value: T) {
    function GetOr(default: T): T {
      if Some? then value else default
    }
  }

  datatype Result<+T, +E> = Ok(value: T) | Err(error: E)

  /** Panes, tabs, epochs and upload directories are named by UUIDs; only equality matters. */
  type Uuid = nat

  /** Dafny sees that concatenation is associative when it is told where. */
  lemma Associative<T>(a: seq<T>, b: seq<T>, c: seq<T>)
    ensures (a + b) + c == a + (b + c)
  {
  }
}
