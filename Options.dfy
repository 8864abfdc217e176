/** Optional values: JavaScript's `null` / `undefined` and the NaN outcomes of the
    date and number conversions are all modelled as `None`. */
module Options {

  datatype Option<+T> = None | Some(value: T)

}
