/** `ExceptionExtensions`: folding text over an exception and its chain of
    inner exceptions. */
module ExceptionExtensions {
  import opened Common

  /** `GlobalConstants.DefaultExceptionSeparator`. */
  const DefaultExceptionSeparator: string := " --> "

  /** An exception: its runtime type name, message, stack trace (null when
      it was never thrown) and inner exception. */
  datatype Exception = Exception(
    typeName: string,
    message: string,
    stackTrace: Option<string>,
    inner: Option<Exception>)

  /** The exception followed by each inner exception in turn, down to the one
      without an inner exception. */
  function Chain(e: Exception): (chain: seq<Exception>)
    decreases e
    ensures |chain| >= 1 && chain[0] == e
  {
    match e.inner
    case None => [e]
    case Some(inner) => [e] + Chain(inner)
  }

  /** Each exception of the chain is followed by its own inner exception, and
      only the last has none. */
  lemma {:induction false} ChainLinks(e: Exception)
    ensures forall i :: 0 <= i < |Chain(e)| - 1 ==>
      Chain(e)[i].inner == Some(Chain(e)[i + 1])
    ensures Chain(e)[|Chain(e)| - 1].inner.None?
    decreases e
  {
    match e.inner
    case None =>
    case Some(inner) =>
      ChainLinks(inner);
      assert forall i :: 1 <= i < |Chain(e)| ==> Chain(e)[i] == Chain(inner)[i - 1];
  }

  /** C# string concatenation reads a null operand as "". */
  function OrEmpty(s: Option<string>): string {
    if s.Some? then s.value else ""
  }

  /** The text one exception contributes: its separator, then its value. */
  function Piece(e: Exception, extract: Exception -> Option<string>,
                 separator: Exception -> string): string
  {
    separator(e) + OrEmpty(extract(e))
  }

  /** The text gathered from `chain`: for each exception in order, its
      separator followed by the extracted value. */
  function Gathered(chain: seq<Exception>, extract: Exception -> Option<string>,
                    separator: Exception -> string): string
    decreases |chain|
  {
    if |chain| == 0 then ""
    else Gathered(chain[..|chain| - 1], extract, separator)
         + Piece(chain[|chain| - 1], extract, separator)
  }

  lemma {:induction false} GatheredSnoc(chain: seq<Exception>, last: Exception,
                     extract: Exception -> Option<string>, separator: Exception -> string)
    ensures Gathered(chain + [last], extract, separator)
         == Gathered(chain, extract, separator) + Piece(last, extract, separator)
  {
    assert (chain + [last])[..|chain|] == chain;
  }

  /** Gathering over a concatenation is gathering over each part. */
  lemma {:induction false} GatheredAppend(a: seq<Exception>, b: seq<Exception>,
                                          extract: Exception -> Option<string>,
                                          separator: Exception -> string)
    ensures Gathered(a + b, extract, separator)
         == Gathered(a, extract, separator) + Gathered(b, extract, separator)
    decreases |b|
  {
    if |b| == 0 {
      assert a + b == a;
    } else {
      var b', last := b[..|b| - 1], b[|b| - 1];
      assert b == b' + [last];
      assert a + b == (a + b') + [last];
      GatheredAppend(a, b', extract, separator);
      GatheredSnoc(a + b', last, extract, separator);
      GatheredSnoc(b', last, extract, separator);
    }
  }

  /** The default separator: the type name in parentheses, then the default
      exception separator. */
  function GetDefaultSeparatorFunc(e: Exception): (separator: Exception -> string)
    ensures forall x :: separator(x) == " (" + x.typeName + ") " + DefaultExceptionSeparator
  {
    (x: Exception) => " (" + x.typeName + ") " + DefaultExceptionSeparator
  }

  /** Walks the exception and its inner exceptions, appending to the result
      the separator and the extracted value of each. */
  method GetFromExceptionHierarchy(exception: Exception, getFromException: Exception -> Option<string>,
                                   buildSeparator: Option<Exception -> string>)
    returns (value: string)
    ensures value == Gathered(Chain(exception), getFromException,
                              if buildSeparator.Some? then buildSeparator.value
                              else GetDefaultSeparatorFunc(exception))
  {
    var separator := if buildSeparator.Some? then buildSeparator.value
                     else GetDefaultSeparatorFunc(exception);
    value := "";
    var e: Option<Exception> := Some(exception);
    ghost var chain := Chain(exception);
    ghost var i := 0;
    ChainLinks(exception);
    while e.Some?
      invariant 0 <= i <= |chain|
      invariant e == if i < |chain| then Some(chain[i]) else None
      invariant value == Gathered(chain[..i], getFromException, separator)
      decreases |chain| - i
    {
      var current := e.value;
      value := value + Piece(current, getFromException, separator);
      assert chain[..i + 1] == chain[..i] + [current];
      GatheredSnoc(chain[..i], current, getFromException, separator);
      e := current.inner;
      i := i + 1;
    }
    assert chain[..i] == chain;
  }

  /** The `Message` extractor; a message is never null. */
  function MessageOf(e: Exception): Option<string> {
    Some(e.message)
  }

  /** The `StackTrace` extractor. */
  function StackTraceOf(e: Exception): Option<string> {
    e.stackTrace
  }

  /** The messages of the whole chain, each after its separator. */
  method GetAllMessagesFromExceptionHierarchy(exception: Exception, buildSeparator: Option<Exception -> string>)
    returns (messages: string)
    ensures messages == Gathered(Chain(exception), MessageOf,
                                 if buildSeparator.Some? then buildSeparator.value
                                 else GetDefaultSeparatorFunc(exception))
  {
    messages := GetFromExceptionHierarchy(exception, MessageOf, buildSeparator);
  }

  /** The stack traces of the whole chain, each after its separator; a null
      stack trace contributes only its separator. */
  method GetAllStackTracesFromExceptionHierarchy(exception: Exception, buildSeparator: Option<Exception -> string>)
    returns (stackTraces: string)
    ensures stackTraces == Gathered(Chain(exception), StackTraceOf,
                                    if buildSeparator.Some? then buildSeparator.value
                                    else GetDefaultSeparatorFunc(exception))
  {
    stackTraces := GetFromExceptionHierarchy(exception, StackTraceOf, buildSeparator);
  }

  /** For an exception with one inner exception, the text is the outer
      separator and value followed by the inner separator and value. */
  lemma TwoLevelChain(outer: Exception, inner: Exception,
                      extract: Exception -> Option<string>, separator: Exception -> string)
    requires outer.inner == Some(inner) && inner.inner.None?
    ensures Gathered(Chain(outer), extract, separator)
         == separator(outer) + OrEmpty(extract(outer)) + separator(inner) + OrEmpty(extract(inner))
  {
    GatheredUnfolds(outer, extract, separator);
    GatheredUnfolds(inner, extract, separator);
  }

  /** The text of a chain is the text of the outer exception followed by the
      text of its inner exception's chain. */
  lemma {:induction false} GatheredUnfolds(e: Exception, extract: Exception -> Option<string>, separator: Exception -> string)
    ensures e.inner.None? ==>
      Gathered(Chain(e), extract, separator) == Piece(e, extract, separator)
    ensures e.inner.Some? ==>
      Gathered(Chain(e), extract, separator)
      == Piece(e, extract, separator) + Gathered(Chain(e.inner.value), extract, separator)
  {
    GatheredSnoc([], e, extract, separator);
    assert [] + [e] == [e];
    if e.inner.Some? {
      assert Chain(e) == [e] + Chain(e.inner.value);
      GatheredAppend([e], Chain(e.inner.value), extract, separator);
    }
  }
}
