/** Option type shared by the modules: `None` stands for JavaScript's
    `null`, `undefined` or `NaN`, depending on the operation. */
module Wrappers {

  datatype Option<+T> = None | Some(value: T)
}
