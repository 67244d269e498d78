/** How an operation of the Java program ends: normally, or by throwing one of
    the runtime exceptions the modelled code can raise. */
module Outcomes {

  /** The Java exceptions that the modelled code lets escape. */
  datatype JavaError =
    | IndexOutOfBounds        // ArrayList.get/set/remove, or an explicit throw
    | StringIndexOutOfBounds  // String.charAt(0) on an empty string
    | BadLocation             // javax.swing.text offset outside the document
    | NumberFormat            // Double.parseDouble on text that is not a number
    | NullPointer             // a method called on a field that is still null

  /** The end of a void operation. */
  datatype Status = Completed | Threw(error: JavaError)

  /** The end of an operation that returns a value. */
  datatype Result<T> = Returned(value: T) | Raised(error: JavaError)

  datatype Option<T> = None | Some(value: T)
}
