/** The exceptions the formatter and the policy evaluator can throw, as error values. */
module Exceptions {
  datatype Exception =
    | FormatException        // Convert.ToInt32 of an empty digit string, or a JSON number outside Int32
    | OverflowException      // a number outside Int32, or a character code outside UTF-16
    | IndexOutOfRange        // parameter index 0 ("%0$d")
    | ArgumentException      // an h or l size applied to a type it does not convert; a duplicate key; too few builtin arguments
    | NullReference          // formatting null with %s, or a size applied to null
    | ArgumentOutOfRange     // a negative padding width, a precision past the string's end, an unknown entrypoint
    | NotModelled(format: char)  // a floating-point or digit-grouping format of a number
    | ArgumentNull           // the sandbox could not parse a JSON document (address 0)
    | BadImageFormat         // the module's ABI major version is not 1
    | KeyNotFound            // a builtin id the module's metadata does not list
    | InvalidOperation       // a builtin name the host does not implement
}
