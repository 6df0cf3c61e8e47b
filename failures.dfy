/** The ways a load or a diff can fail. The decoder reports each of them as an
    exception; here they are values. */
module Failures {

  datatype ParseError =
    | FormatError(reason: string)     // SimCityParseException: short file or bad magic bytes
    | BadRunLength                    // an RLE control byte of 0 or 128
    | TruncatedSection                // the stream ended before a section's declared end
    | NegativeLength                  // a raw section whose declared length is negative
    | IndexOutOfRange                 // a list or grid index past its end
    | SectionNotFound(name: string)   // no section of that name has been read

  datatype Result<+T> = Ok(value: T) | Err(error: ParseError)

  datatype Option<+T> = None | Some(value: T)
}
