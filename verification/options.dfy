/** The optional value used where the modelled code either produces a result
    or stops (a panic, or an exhausted fuel bound). */
module Options {

  datatype Option<+T> = None | Some(value: T)

}
