/** Failure-carrying results and the errors the generator can raise. */
module Base {

  datatype Option<+T> = None | Some(value: T)

  /** The run-time failures of the generator, one constructor per way the JavaScript code throws. */
  datatype Error =
    | UnknownObject(id: string)         // a blend entry (or the top-level id) names no declaration: a TypeError
    | MissingCell(x: int, y: int)       // the (shifted) source position lies outside the unpacked grid: a TypeError
    | TooManyColours(name: string)      // the palette would grow past eleven colours

  datatype Result<+T> = Ok(value: T) | Err(error: Error)
}
