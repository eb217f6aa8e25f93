/** An optional value: `None` stands for the NULL pointer a C function returns
    when it has nothing to give back. */
module Optional {

  datatype Option<+T> = None | Some(value: T)

}
