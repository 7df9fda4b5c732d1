/** Types that the models share. */
module Common {
  datatype Option<T> = None | Some(value: T) {
    function UnwrapOr(default: T): T {
      if Some? then value else default
    }
  }

  datatype TableID = TableID(schema: string, name: string)
}
