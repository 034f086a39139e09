/** The optional value used wherever the bot's code holds `null` or "nothing". */
module Wrappers {

  datatype Option<+T> = None | Some(value: T)
}
