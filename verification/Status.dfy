/** The status codes of the XML writer that the model can return. */
module StatusCodes {
  datatype Status =
    | Success
    | BadUtf8
    | NonXmlCharacter
    | BadName
    | BadNamespaceName
    | DuplicatePrefix
    | SequenceError
    | NoStartTag
    | MissingValue
    | MalformedComment
    | DuplicateAttribute
    | AttributeInDefaultNamespace
    | DuplicateNamespace
    | BadDefaultDeclaration
    /** Not a code of the source: stands for the null `declaration` that writeStartTag would follow. */
    | NullDeclaration
    /** Nor is this: stands for reading on behind the terminator of the name `xmlns`. */
    | ReadPastName
    /** Not a code of the source either: the caller has no such record to make the call with. */
    | NoHandle

  /** Does the source read where it should not? */
  predicate GoesWrong(r: Status) {
    r.NullDeclaration? || r.ReadPastName?
  }
}
