/** The failures the decimal library raises, and the failure-compatible result type that
    carries them. Every throw in the source becomes one `Error` value. */
module Results {

  datatype Error =
    | MultipleDecimalPoints    // fromString: a second '.'
    | InvalidCharacter         // fromString: not a digit, '.', 'e' or 'E'
    | NoDigits                 // fromString: no digit at all
    | NoExponentDigits         // parseExp: nothing after the mark (and its sign)
    | TooManyExponentDigits    // parseExp: more than ten significant exponent digits
    | NotADigit                // parseExp: a non-digit inside the exponent
    | ScaleOutOfRange          // adjustScale: scale minus exponent leaves the i32 range
    | IntegerOverflow          // overflowGuard: an i64 scale computation leaves the i32 range
    | DivideByZero             // div: the divisor's mantissa is zero
    | RoundingNecessary        // rounding mode NONE met a nonzero remainder
    | IndexOutOfRange          // a read past the end of the power-of-ten table

  datatype Result<+T> = Ok(value: T) | Err(error: Error) {

    predicate IsFailure() {
      Err?
    }

    function PropagateFailure<U>(): Result<U>
      requires Err?
    {
      Err(error)
    }

    function Extract(): T
      requires Ok?
    {
      value
    }
  }
}
