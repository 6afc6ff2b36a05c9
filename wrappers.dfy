/** Result shapes shared by the model: an optional value (Python's `None`),
    and the outcome of a Python call that may raise instead of returning. */
module Wrappers {

  datatype Option<+T> = None | Some(value: T)

  /** The Python exceptions the modelled code can let escape. */
  datatype PyError =
    | ValueError        // int(..., 16) on a malformed slice, np.vstack on mismatched rows
    | TypeError         // os.path.exists(None)
    | ZeroDivisionError // `//` by a zero layout dimension
    | OpenCvError       // cv2.resize asked for an empty target size; cv2.imwrite with no
                        // writer for the path's extension, or given an empty image
    | FileNotFound      // os.makedirs("")
    | FileExists        // os.makedirs on a path that is a regular file

  /** What a Python call did: returned a value, or raised. */
  datatype Outcome<+T> = Returned(value: T) | Raised(error: PyError)
}
