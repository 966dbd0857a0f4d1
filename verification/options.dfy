/** An optional value, used for the direction table lookup and for a rejection
    sampler that may run out of random draws. */
module Options {

  datatype Option<+T> = None | Some(value: T)
}
