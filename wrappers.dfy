/** The optional value that `re.match`, `re.search` and the lyric driver's `None` return stand for. */
module Wrappers {

  datatype Option<+T> = None | Some(value: T)
}
