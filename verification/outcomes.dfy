/** Failure-carrying results for the modelled operations.

    The modelled code signals failure with Python exceptions; each kind it
    raises (or lets escape) becomes one constructor of `Error`.
 */
module Outcomes {

  datatype Option<+T> = None | Some(value: T)

  datatype Error =
    | TypeError        // an add operation's role check failed
    | MissingMethod    // the receiver's class has no such method (AttributeError)
    | ValueError       // an invalid date, an unknown record tag
    | HasDependents    // a parent of record cannot be removed
    | NoRelationship   // nothing links the two people

  datatype Result<+T> = Ok(value: T) | Err(error: Error)
}
