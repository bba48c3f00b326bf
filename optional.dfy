/** The "no match" results of the converter's classifiers (Python's None). */
module Optional {
  datatype Option<+T> = None | Some(value: T)
}
