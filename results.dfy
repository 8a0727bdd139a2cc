/** The exceptions the modelled code can raise, as values. */
module Results {

  /** The three ways the modelled part of the script stops with an exception. */
  datatype Fault =
    | AssertionFailed(message: string)   // `assert` in Image.crop_contours
    | EmptyChoice                        // np.random.choice on an empty list (ValueError)
    | MissingAttribute(name: string)     // reading an attribute that was never set (AttributeError)

  datatype Result<+T> = Ok(value: T) | Err(fault: Fault)

  datatype Option<+T> = None | Some(value: T)
}
