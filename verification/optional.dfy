/** An optional value: `None` stands for "no value", where the Java code would
    throw or leave a field null. */
module Optional {

  datatype Option<+T> = None | Some(value: T)

}
