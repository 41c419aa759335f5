/** The slice of Java's exception hierarchy the service and controller use,
    and the rule by which a `try` statement's `catch` clauses pick a handler. */
module Exceptions {
  import opened Wrappers

  /** The exception classes the code names. `ExceptionClass` stands for
      `java.lang.Exception` itself and every checked subclass of it;
      `RuntimeExceptionClass` for `RuntimeException` and its subclasses other
      than `IllegalArgumentException`. */
  datatype JavaClass = ExceptionClass | RuntimeExceptionClass | IllegalArgumentExceptionClass

  /** `sub` is `sup` or extends it. */
  predicate SubclassOf(sub: JavaClass, sup: JavaClass) {
    || sub == sup
    || sup == ExceptionClass
    || (sub == IllegalArgumentExceptionClass && sup == RuntimeExceptionClass)
  }

  /** A thrown exception: its run-time class and `getMessage()`. */
  datatype Exception = Exception(cls: JavaClass, message: string)

  /** `e instanceof c`. */
  predicate InstanceOf(e: Exception, c: JavaClass) {
    SubclassOf(e.cls, c)
  }

  /** Unchecked exceptions: the ones a method may throw without declaring them. */
  predicate Unchecked(e: Exception) {
    InstanceOf(e, RuntimeExceptionClass)
  }

  /** `new RuntimeException(message)`. */
  function RuntimeException(message: string): (e: Exception)
    ensures Unchecked(e) && !InstanceOf(e, IllegalArgumentExceptionClass)
    ensures e.message == message
  {
    Exception(RuntimeExceptionClass, message)
  }

  /** `new IllegalArgumentException(message)`. */
  function IllegalArgumentException(message: string): (e: Exception)
    ensures InstanceOf(e, IllegalArgumentExceptionClass) && Unchecked(e)
    ensures e.message == message
  {
    Exception(IllegalArgumentExceptionClass, message)
  }

  /** The `catch` clause of a `try` statement that handles `e`: clauses are
      tried in the order written, and the first whose class `e` is an instance
      of wins; `None` means no clause matches and `e` propagates. */
  function FirstCatch(catches: seq<JavaClass>, e: Exception): (k: Option<nat>)
    ensures k.Some? ==> k.value < |catches| && InstanceOf(e, catches[k.value])
    ensures k.Some? ==> forall j :: 0 <= j < k.value ==> !InstanceOf(e, catches[j])
    ensures k.None? <==> forall j :: 0 <= j < |catches| ==> !InstanceOf(e, catches[j])
    decreases |catches|
  {
    if |catches| == 0 then None
    else if InstanceOf(e, catches[0]) then Some(0)
    else match FirstCatch(catches[1..], e)
      case None => None
      case Some(k) => Some(k + 1)
  }
}
