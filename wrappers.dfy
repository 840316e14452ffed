// Option and Result, and the exceptions of the .NET runtime and of the
// interpreter that the model turns into values.

module Wrappers {

  datatype Option<T> = None | Some(value: T)
  {
    function GetOr(default: T): T
    {
      if Some? then value else default
    }
  }

  /** The exceptions the modelled code throws or lets escape, by kind. */
  datatype Exception =
    | MissingAttribute(attribute: string)   // "Missing attribute ..." thrown by a handler
    | MissingElement(element: string)       // a required configuration element is absent
    | NullReference                         // NullReferenceException
    | InvalidValue(text: string)            // a TryParse that failed, reported by a throw
    | KeyNotFound(key: string)              // KeyNotFoundException from a Dictionary indexer
    | UnknownMethod(name: string)           // a configuration tag with no handler
    | UnknownModifier(name: string)         // no modifier answers to the name
    | NoMatch(path: string)                 // "No match" from GetValues
    | MultipleMatches(path: string)         // "Multiple matches" from GetValues
    | TooFewValues(attribute: string)       // fewer values than the minimum
    | TooManyValues(attribute: string)      // more values than the maximum
    | XPathFailure(path: string)            // XPathException: bad syntax or not a node-set
    | UserError(message: string)            // <error exit="true"/>
    | CaseWithoutCondition                  // a <case> without match or value
    | TooManyDefaults                       // more than one <default> in a <switch>
    | MappingNotFound(name: string)         // <usenamedmapping> names no mapping
    | IndexOutOfRange                       // IndexOutOfRangeException
    | ArgumentOutOfRange                    // ArgumentOutOfRangeException
    | InvalidArgument(text: string)         // ArgumentException
    | UriFormat(text: string)               // UriFormatException
    | Foreign(text: string)                 // raised inside a runtime facility outside the model
    | BadBlankNodeName(name: string)        // a blank node name that is not "ns:Type"
    | BadXmlName(name: string)              // XmlException: a character not allowed in an XML name
    | NestingTooDeep                        // the recursion bound of the model ran out

  datatype Result<T> = Ok(value: T) | Err(error: Exception)
  {
    predicate IsFailure()
    {
      Err?
    }

    function PropagateFailure<U>(): Result<U>
      requires Err?
    {
      Err(error)
    }

    function Extract(): T
      requires Ok?
    {
      value
    }
  }
}
