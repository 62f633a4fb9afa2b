/** The optional value used where the node may or may not have something:
    a peer's reply, the chain chosen by consensus. */
module Options {

  datatype Option<+T> = None | Some(value: T)
}
