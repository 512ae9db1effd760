/** The translation fallback wrapper `translate_text`: the backend (a
    network translation client) is a parameter, and a call that raises is
    modelled as the backend returning `None`. */
module Translation {
  import opened Wrappers
  import opened Xliff

  /** The translation client, given the text and the source and target
      language names: `Some(v)` when it returns `v`, `None` when it raises. */
  type Backend = (Text, string, string) -> Option<Text>

  /** `translate_text`: the backend's answer when it returns one, the input
      text unchanged when it raises. Never fails itself. */
  function TranslateText(backend: Backend, text: Text, sourceLang: string, targetLang: string): (r: Text)
    ensures backend(text, sourceLang, targetLang).Some? ==> r == backend(text, sourceLang, targetLang).value
    ensures backend(text, sourceLang, targetLang).None? ==> r == text
  {
    backend(text, sourceLang, targetLang).GetOr(text)
  }

  /** The translation function the document pass uses, with the language
      pair fixed. */
  function Translator(backend: Backend, sourceLang: string, targetLang: string): Text -> Text {
    t => TranslateText(backend, t, sourceLang, targetLang)
  }

  /** A backend that always raises leaves every text as it was. */
  lemma FailingBackendIsIdentity(backend: Backend, sourceLang: string, targetLang: string, text: Text)
    requires forall t, a, b :: backend(t, a, b).None?
    ensures Translator(backend, sourceLang, targetLang)(text) == text
  {
  }
}
