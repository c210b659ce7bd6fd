/** Small types that several components share. */
module Common {

  datatype Option<+T> = None | Some(value: T)

  /** common.EntityType. */
  datatype EntityType = File | Folder
}
