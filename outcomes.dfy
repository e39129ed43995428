/** Result types shared by the model.

    The program has two ways of failing. Some functions return an error value
    (`Err("…")` in the program); others call `unwrap()` on a missing value and
    the whole process panics. The model keeps the two apart: `Err` carries the
    program's own message, `Panicked` names the `unwrap()` that would abort.
 */
module Outcomes {

  datatype Option<+T> = None | Some(value: T)

  /** Each `unwrap()` of the modelled code that can fail. */
  datatype PanicCause =
    | NoFileName                      // `Path::file_stem()` is None: no final normal path component
    | NoExtension                     // `Path::extension()` is None
    | UnknownExtension(extn: string)  // `parse::<TrackExtension>()` returned Err
    | NoParentSegment                 // the second `pop()` of the split path found nothing

  datatype Result<+T> =
    | Ok(value: T)
    | Err(message: string)
    | Panicked(cause: PanicCause)
}
