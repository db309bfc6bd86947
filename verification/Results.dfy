// Optional values, and the results of the containers.

module Results {

  datatype Option<T> = None | Some(value: T)

  datatype Outcome = Success | InvalidArgument | Memory | Full {
    // The ms_result code, where one is returned as a number
    function Code(): nat
      requires Success? || InvalidArgument?
    {
      if Success? then 0 else 3
    }
  }
}
