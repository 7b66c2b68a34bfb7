/** The absent-or-present value that the JavaScript code expresses with
    `undefined` / `null`. */
module Optional {

  datatype Option<+T> = None | Some(value: T)

}
