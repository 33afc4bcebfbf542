/** Option type shared by the decoder. */
module Wrappers {

  /** `None` stands for the renderer's "texture id 0" failure return. */
  datatype Option<+T> = None | Some(value: T)
}
