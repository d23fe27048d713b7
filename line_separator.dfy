/**
 * `LineSeparator` (Sources/Bases/LineSeparator.swift): the string inserted
 * between lines of encoded text, and the line length. The unchecked
 * initialiser is the datatype's constructor; the checked one refuses a
 * length that is not positive.
 */
module LineSeparators {

  import opened Wrappers
  import opened Errors

  /** Equality is structural over both fields, as the synthesised `Equatable` conformance. */
  datatype LineSeparator = LineSeparator(separator: seq<char>, length: int)

  /** `init(separator:length:)`. */
  function NewLineSeparator(separator: seq<char>, length: int): (r: Result<LineSeparator, LineSeparatorError>)
    ensures r.Success? <==> length > 0
    ensures r.Success? ==> r.value.separator == separator && r.value.length == length
    ensures r.Failure? ==> r.error == NonPositiveLength
  {
    if length <= 0 then Failure(NonPositiveLength)
    else Success(LineSeparator(separator, length))
  }

  /**
   * The checked initialiser accepts exactly the separators whose length is
   * positive, and gives back the value the unchecked one builds.
   */
  lemma CheckedIsUnchecked(s: LineSeparator)
    ensures NewLineSeparator(s.separator, s.length) == (if s.length > 0 then Success(s) else Failure(NonPositiveLength))
  {
  }

  /** Two successful checked initialisations agree exactly when their arguments do. */
  lemma NewLineSeparatorInjective(s1: seq<char>, l1: int, s2: seq<char>, l2: int)
    requires NewLineSeparator(s1, l1).Success? && NewLineSeparator(s2, l2).Success?
    ensures NewLineSeparator(s1, l1) == NewLineSeparator(s2, l2) <==> s1 == s2 && l1 == l2
  {
  }

  /** The examples of the test suite: length 0 is refused, ("a", 3) is kept as given. */
  lemma Examples()
    ensures NewLineSeparator("a", 0) == Failure(NonPositiveLength)
    ensures NewLineSeparator("a", 3) == Success(LineSeparator("a", 3))
    ensures LineSeparator("a", 3).separator == "a" && LineSeparator("a", 3).length == 3
  {
  }
}
