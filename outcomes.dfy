/**
 * The exceptions the labeled-name code throws, as values, and the
 * wrappers that carry either a result or one of them.
 */
module Outcomes {

  datatype Option<+T> = None | Some(value: T)

  /**
   * One exception the Java code throws. InvalidMetricName and InvalidDomain
   * carry the text their message is built from. ReservedLabelKey records the
   * refused key, although the Java message is a constant that does not name
   * it. MalformedObjectName records the text handed to `new ObjectName`; the
   * Java AssertionError takes its message and cause from the
   * MalformedObjectNameException, which is not modelled.
   */
  datatype Error =
    | ReservedLabelKey(key: string)      // IllegalArgumentException thrown by label
    | InvalidMetricName(name: string)    // AssertionError thrown by extractLabels
    | InvalidDomain(domain: string)      // AssertionError thrown by quoteDomainIfRequired
    | MalformedObjectName(text: string)  // AssertionError wrapping MalformedObjectNameException in createName

  /** True for the errors the Java code throws as `AssertionError`. */
  predicate IsAssertionError(e: Error)
  {
    !e.ReservedLabelKey?
  }

  datatype Result<+T> = Ok(value: T) | Err(error: Error)

  /** The result of a call that returns nothing of its own when it succeeds. */
  datatype Outcome = Pass | Fail(error: Error)
}
