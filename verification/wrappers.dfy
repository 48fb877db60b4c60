/** Option and Result datatypes shared by every module of the model.

    The source signals failure with Python exceptions. Callers catch only some
    exception classes, so the class raised is part of the behaviour: `Error`
    names it, and `Result` carries it. */
module Wrappers {

  datatype Option<+T> = None | Some(value: T)

  /** The exception classes the modelled code raises or catches. */
  datatype Error =
    | NotFound           // SubArticleElementNotFoundError: "fall back to a plainer element"
    | NoSubpoints        // NoSubpointsError: "this element is plain text"
    | SubArticleParsing  // SubArticleParsingError (a StructureParsingError)
    | ArticleParsing     // ArticleParsingError (a StructureParsingError)
    | ActParsing         // ActParsingError (a StructureParsingError)
    | ValueError
    | IndexError
    | KeyError
    | TypeError
    | AttributeError
    | AssertionError
    | GrammarError       // any failure raised by the external grammar parser

  datatype Result<+T> = Ok(value: T) | Err(error: Error) {

    predicate IsFailure() {
      Err?
    }

    function PropagateFailure<U>(): Result<U>
      requires Err?
    {
      Err(error)
    }

    function Extract(): T
      requires Ok?
    {
      value
    }
  }
}
