/** `process_xliff` as a whole: the extension check, then reading and
    parsing (a parameter), the trans-unit pass, and writing to the derived
    output path (a parameter). */
module Processor {
  import opened Wrappers
  import opened Paths
  import opened Translation
  import opened Xliff
  import opened Reconciler

  /** What reading and parsing the file gave: a read error, a parse error,
      or the root element. */
  datatype Loaded = ReadFailed | ParseFailed | Parsed(root: Element)

  /** The step at which a call ended without output. */
  datatype Stage = Reading | Parsing | Writing

  /** The three ways a call ends: the extension `ValueError` is raised, `None`
      is returned (after a read, parse or write error), or the output path is
      returned with the document that was written there. */
  datatype Outcome =
    | InvalidExtension(message: string)
    | NoOutput(stage: Stage)
    | Written(outputPath: string, document: Element)

  /** The message of the `ValueError` raised for a wrong extension. */
  function ExtensionMessage(ext: string): string {
    "The file must be an XLIFF file with a " + ExtensionSuffix(ext) + " extension."
  }

  /** `process_xliff(file_path, source_lang, target_lang, file_extension)`,
      with the file system and the translation client as parameters. */
  function ProcessXliff(
    filePath: string, sourceLang: string, targetLang: string, fileExtension: string,
    load: string -> Loaded, backend: Backend, write: (string, Element) -> bool): (r: Outcome)
    ensures r.InvalidExtension? <==> !HasExtension(filePath, fileExtension)
    ensures r.InvalidExtension? ==> r.message == ExtensionMessage(fileExtension)
    ensures r.NoOutput? ==> HasExtension(filePath, fileExtension)
    ensures r.NoOutput? && r.stage == Reading <==> HasExtension(filePath, fileExtension) && load(filePath).ReadFailed?
    ensures r.NoOutput? && r.stage == Parsing <==> HasExtension(filePath, fileExtension) && load(filePath).ParseFailed?
    ensures r.Written? ==>
      && load(filePath).Parsed?
      && r.outputPath == OutputPath(filePath, fileExtension)
      && |r.outputPath| > |filePath|
      && r.document == ProcessDocument(load(filePath).root, Translator(backend, sourceLang, targetLang))
      && write(r.outputPath, r.document)
    ensures HasExtension(filePath, fileExtension) && load(filePath).Parsed? ==>
      (r.Written? <==> write(OutputPath(filePath, fileExtension),
                             ProcessDocument(load(filePath).root, Translator(backend, sourceLang, targetLang))))
  {
    if !HasExtension(filePath, fileExtension) then
      InvalidExtension(ExtensionMessage(fileExtension))
    else
      match load(filePath)
      case ReadFailed => NoOutput(Reading)
      case ParseFailed => NoOutput(Parsing)
      case Parsed(root) =>
        var document := ProcessDocument(root, Translator(backend, sourceLang, targetLang));
        var outputPath := OutputPath(filePath, fileExtension);
        OutputPathProperties(filePath, fileExtension);
        if write(outputPath, document) then Written(outputPath, document) else NoOutput(Writing)
  }

  /** The extension check comes before any file access: for a path that
      fails it, the outcome is the same whatever the file system and the
      translation client would do. */
  lemma ExtensionCheckedBeforeRead(
    filePath: string, sourceLang: string, targetLang: string, fileExtension: string,
    load1: string -> Loaded, backend1: Backend, write1: (string, Element) -> bool,
    load2: string -> Loaded, backend2: Backend, write2: (string, Element) -> bool)
    requires !HasExtension(filePath, fileExtension)
    ensures ProcessXliff(filePath, sourceLang, targetLang, fileExtension, load1, backend1, write1)
         == ProcessXliff(filePath, sourceLang, targetLang, fileExtension, load2, backend2, write2)
         == InvalidExtension(ExtensionMessage(fileExtension))
  {
  }

  /** A failing translation client never aborts the pass: a unit with a
      source and no target still gets its target, holding the untranslated
      source text, and each mirrored child keeps the source child's
      non-empty tail untranslated. */
  lemma FailedTranslationKeepsSource(u: Element, backend: Backend, sourceLang: string, targetLang: string, s: nat)
    requires forall t, a, b :: backend(t, a, b).None?
    requires FirstWithTag(u.children, SourceTag, s) && !HasChildTagged(u.children, TargetTag)
    ensures
      var target := ReconcileUnit(u, Translator(backend, sourceLang, targetLang)).children[s + 1];
      && target.tag == CreatedTargetTag
      && target.text == u.children[s].text
      && |target.children| == |u.children[s].children|
      && forall i :: 0 <= i < |target.children| ==>
           target.children[i] == u.children[s].children[i].(
             children := [],
             tail := if NonEmpty(u.children[s].children[i].tail) then u.children[s].children[i].tail else None)
  {
    var tr := Translator(backend, sourceLang, targetLang);
    var source := u.children[s];
    var target := ReconcileUnit(u, tr).children[s + 1];
    assert IsFilled(target, EmptyTarget, source, tr);
    forall t ensures tr(t) == t {
      FailingBackendIsIdentity(backend, sourceLang, targetLang, t);
    }
    FillWithoutTranslation(target, EmptyTarget, source, tr);
    assert |EmptyTarget.children| == 0;
  }
}
