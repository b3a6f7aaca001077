/** The user-facing error text shared by the manual-analysis and K-Means
    clients: a thrown value is either an `Error` with a message or something
    else, and the message is mapped by keyword with a fixed precedence. */
module Errors {
  import Text

  /** What a `catch` clause receives. */
  datatype Thrown = ErrorValue(message: string) | OtherValue

  const NetworkText: string := "Ошибка сети. Проверьте подключение к серверу."
  const ServerText: string := "Внутренняя ошибка сервера."
  const UnknownText: string := "Произошла неизвестная ошибка"
  /** The not-found texts of the manual-analysis and the K-Means clients. */
  const ManualNotFoundText: string := "Результат не найден."
  const KMeansNotFoundText: string := "Результат анализа не найден."

  /** `formatError` with the client-specific not-found text: 'fetch' wins over
      '404', which wins over '500'; otherwise the raw message; a value that is
      not an `Error` gets the unknown-error text. */
  function FormatError(e: Thrown, notFoundText: string): (r: string)
    ensures e.OtherValue? ==> r == UnknownText
    ensures e.ErrorValue? ==> r in {NetworkText, notFoundText, ServerText, e.message}
  {
    match e
    case OtherValue => UnknownText
    case ErrorValue(m) =>
      if Text.Contains(m, "fetch") then NetworkText
      else if Text.Contains(m, "404") then notFoundText
      else if Text.Contains(m, "500") then ServerText
      else m
  }

  /** `keyword` occurs in `m` at some offset. */
  ghost predicate Mentions(m: string, keyword: string) {
    exists i :: Text.OccursAt(m, keyword, i)
  }

  /** The precedence, stated with keyword occurrences at explicit offsets:
      the first keyword in the order 'fetch', '404', '500' that occurs
      anywhere in the message decides, and a message with none of them is
      passed through unchanged. */
  lemma FormatErrorPrecedence(m: string, notFoundText: string)
    ensures var r := FormatError(ErrorValue(m), notFoundText);
      (Mentions(m, "fetch") ==> r == NetworkText) &&
      (!Mentions(m, "fetch") && Mentions(m, "404") ==> r == notFoundText) &&
      (!Mentions(m, "fetch") && !Mentions(m, "404") && Mentions(m, "500") ==> r == ServerText) &&
      (!Mentions(m, "fetch") && !Mentions(m, "404") && !Mentions(m, "500") ==> r == m)
  {
    Text.ContainsIsOccurrence(m, "fetch");
    Text.ContainsIsOccurrence(m, "404");
    Text.ContainsIsOccurrence(m, "500");
  }

  /** The two clients answer differently exactly on messages that mention
      '404' but not 'fetch'. */
  lemma ClientsDifferOnlyOnNotFound(e: Thrown)
    ensures FormatError(e, ManualNotFoundText) != FormatError(e, KMeansNotFoundText) <==>
      e.ErrorValue? && !Mentions(e.message, "fetch") && Mentions(e.message, "404")
  {
    if e.ErrorValue? {
      FormatErrorPrecedence(e.message, ManualNotFoundText);
      FormatErrorPrecedence(e.message, KMeansNotFoundText);
      assert ManualNotFoundText != KMeansNotFoundText by {
        assert |ManualNotFoundText| != |KMeansNotFoundText|;
      }
    }
  }
}
