/** An optional value: a field a record may lack, or a lookup that may find nothing. */
module Maybe {

  datatype Option<+T> = None | Some(value: T)

}
