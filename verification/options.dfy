/** An optional value. In the search it stands for "no score yet", the role
    the infinite float sentinels play in the Python game. */
module Options {

  datatype Option<+T> = None | Some(value: T)

}
