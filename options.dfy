/** The "pointer or NULL" results of lispy.h: `None` stands for NULL. */
module Options {
  datatype Option<+T> = None | Some(value: T)
}
