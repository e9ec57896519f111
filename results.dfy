/** Failure-carrying results shared by the whole pipeline.  The exceptions
    this model covers become `Err` values here; resource limits of the
    interpreter (integer-string length, memory) are not modelled. */
module Results {

  datatype Option<+T> = None | Some(value: T)

  /** The exceptions of the core that the model covers. */
  datatype Error =
    | FileNotFound        // open() of a missing detections file
    | BadNumber(line: nat) // float() rejects the matched text of that line, e.g. "1.2.3"
    | EmptyFrames         // frames.max() of an empty frame array
    | EmptySignal         // np.convolve of an empty signal
    | DivisionByZero      // a float division by a zero bpm_max or fps

  datatype Result<+T> = Ok(value: T) | Err(error: Error)
}
