/** The optional value returned by `HuffmanTree.decode` (a string or `None`)
    and held by the majority counter's `guess`. */
module Wrappers {

  datatype Option<+T> = None | Some(value: T)

}
