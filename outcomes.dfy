/** Failure-carrying results shared by every stage of the conversion.
    Each `Error` stands for an exception the converter raises and that ends the run. */
module Outcomes {

  datatype Option<+T> = None | Some(value: T)

  datatype Error =
    /** `seek` to a negative file offset (OSError) while reading an `.ARM.extab` word */
    | NegativeSeek(offset: int)
    /** no `.ARM.exidx` candidate found by any scan (EOFError) */
    | ExidxNotFound
    /** `.ARM.exidx` too close to the image start to leave room for `.text` (EOFError) */
    | NoPlaceForText
    /** the last section in address order starts past the end of the address space (AssertionError) */
    | AddrSpaceTooSmall(section: string)
    /** a section starts past the start of the section that follows it in address order (AssertionError) */
    | NegativeDistance(section: string)
    /** a section starts past the highest start the address-space limit allows (AssertionError) */
    | LimitTooSmall(section: string)
    /** a section dictionary lookup of a missing name (KeyError) */
    | MissingSize(section: string)
    /** a `--section` argument with no section name in it (AttributeError on a failed regex search) */
    | NoSectionName
    /** a numeric literal `int(x, 0)` does not accept (ValueError) */
    | InvalidLiteral(text: string)

  datatype Result<+T> = Ok(value: T) | Err(error: Error)

  datatype Outcome = Pass | Fail(error: Error)
}
