/** An optional value: an empty ability slot, or a mana system that was not found. */
module Optional {
  datatype Option<+T> = None | Some(value: T)
}
