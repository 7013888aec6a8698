/** `LanguageConverter`: the JSON codec of the `Language` enum. */
module Languages {
  import opened Wrappers
  import opened Text

  datatype Language = English | Indonesia

  const EmptyMessage := "Language cannot be empty."
  const InvalidPrefix := "Invalid language: "

  /** `Read`: `null` and "" are rejected; otherwise the lower-cased text selects the
      language, and any other text is rejected with the text as it was read. */
  function Read(value: Option<string>): (r: Result<Language>)
    ensures value.None? || value.value == [] ==> r == Failure(EmptyMessage)
    ensures r.Failure? && value.Some? && value.value != [] ==> r.error == InvalidPrefix + value.value
  {
    if value.None? || value.value == [] then Failure(EmptyMessage)
    else
      var lowered := Lower(value.value);
      if lowered == "en" then Success(English)
      else if lowered == "id" then Success(Indonesia)
      else Failure(InvalidPrefix + value.value)
  }

  /** `Write`: the lower-case code of each language. */
  function Write(language: Language): (s: string)
    ensures Lower(s) == s && |s| == 2
  {
    match language
    case English => "en"
    case Indonesia => "id"
  }

  /** Read is case-insensitive: exactly the four casings of "en" give English and exactly
      the four casings of "id" give Indonesia; every other text fails. */
  lemma ReadCaseInsensitive(s: string)
    ensures Read(Some(s)) == Success(English) <==>
      |s| == 2 && (s[0] == 'e' || s[0] == 'E') && (s[1] == 'n' || s[1] == 'N')
    ensures Read(Some(s)) == Success(Indonesia) <==>
      |s| == 2 && (s[0] == 'i' || s[0] == 'I') && (s[1] == 'd' || s[1] == 'D')
  {
  }

  /** Round trip: reading what was written gives back the language. */
  lemma ReadWrite(language: Language)
    ensures Read(Some(Write(language))) == Success(language)
  {
  }

  /** Writing what was read gives the lower-cased input. */
  lemma WriteRead(s: string)
    requires Read(Some(s)).Success?
    ensures Write(Read(Some(s)).value) == Lower(s)
  {
  }

  /** The codes written, and sample inputs: mixed casing is accepted, an unknown code is echoed in the message. */
  lemma Examples()
    ensures Write(English) == "en" && Write(Indonesia) == "id"
    ensures Read(Some("EN")) == Success(English) && Read(Some("iD")) == Success(Indonesia)
    ensures Read(Some("fr")) == Failure("Invalid language: fr")
    ensures Read(Some("")) == Failure(EmptyMessage) && Read(None) == Failure(EmptyMessage)
  {
  }
}
