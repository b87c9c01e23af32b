/** The absent-or-present value used wherever JavaScript returns `undefined`
    for "not found" (`Array.prototype.find`, `findIndex` returning -1). */
module Optional {

  datatype Option<T> = None | Some(value: T)

}
