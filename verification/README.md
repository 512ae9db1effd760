# XLIFF translator — a Dafny model

The repository is one Python script, `translator.py`. It fills in missing
translations in an XLIFF 1.2 file. Its only function with real logic is
`process_xliff`:

1. It lower-cases the extension argument and refuses a path that does not
   end with `.` + that extension.
2. It reads and parses the file.
3. It walks every `trans-unit` in the namespace
   `urn:oasis:names:tc:xliff:document:1.2`. For each unit with a `source`,
   it creates a `target` after the source when there is none. If the
   target's text is `None`, it sets that text to the translated source text
   and appends a shallow copy of each source child, translating only the
   child's tail.
4. It writes the tree to a path in which every `.ext` has become
   `.modified.ext`.

`translate_text` wraps the translation client. When the client raises, it
returns the original text.

The model is a set of pure functions over immutable data:

- `Wrappers.dfy`: the `Option` type.
- `Paths.dfy`: `str.lower` (ASCII only), `str.endswith`, and `str.replace`
  as `ReplaceAll`, which rewrites every non-overlapping occurrence from left
  to right. Also the extension check and the output path.
- `Xliff.dfy`: the element tree (`tag`, `attrs`, `text`, `children`,
  `tail`), with a text that may be Python's `None` as `Text = Option<string>`,
  the namespaced tags in lxml's `{uri}local` notation, and `find` as
  `FindChild`.
- `Translation.dfy`: `translate_text`. The client is a function parameter
  that returns `None` when it raises.
- `Reconciler.dfy`: the unit step `ReconcileUnit`, the walk over the tree,
  paths of child indices into it, and lemmas about both.
- `Processor.dfy`: `process_xliff` as a whole. Reading, parsing and writing
  are parameters.

On these points the model follows what the code does, which a reader may
not expect:

- **Every occurrence is rewritten.** The output path replaces every `.ext`,
  not only the final one. `Paths.OutputPathRewritesDirectories` shows
  `d.xlf/a.xlf` becoming `d.modified.xlf/a.modified.xlf`.
- **The path match is case-sensitive.** Only the extension argument is
  lower-cased.
- **Empty text still counts as text.** A target is skipped when its text is
  not `None`, even when that text is empty.
- **A created target is not namespaced in memory.** A created target has
  the plain tag `target`, which the namespaced lookup does not find. So a
  second unit step on the same in-memory unit adds another target
  (`Reconciler.SecondPassAddsAnotherTarget`); the script itself never takes
  that second step within one run. A unit whose target is namespaced stays
  stable once its target has text (`Reconciler.NamespacedTargetIsStable`).
  What running the script again on its own output does depends on how lxml
  writes and re-reads the plain `target` (under a default XLIFF namespace
  it is read back as a namespaced target), and serialisation is left out.
- **Grandchildren are dropped.** A mirrored child gets no children of its
  own. Whatever lies inside a source child, apart from its text, is not
  copied.

## Model

| member | source | states |
|---|---|---|
| Paths.Lower | translator.py:16 | The lower-cased extension has the same length as the argument, each character is lowered, and no upper-case ASCII letter is left |
| Paths.ModifiedSuffix | translator.py:73 | The replacement `.modified.ext` still ends with the `.ext` the check looks for, and is nine characters longer |
| Paths.ReplaceAllLength | translator.py:73 | `str.replace` changes the length by the length difference once per rewritten occurrence |
| Paths.ReplaceAllIdentity | translator.py:73 | A string in which the pattern occurs at no index is returned unchanged |
| Paths.OccurrenceIsCounted | translator.py:73 | If the pattern occurs anywhere, the left-to-right scan rewrites at least one occurrence |
| Paths.CountedIsOccurrence | translator.py:73 | If the scan rewrites at least one occurrence, the pattern occurs at some index |
| Paths.OccurrencesMatchPositions | translator.py:73 | The scan rewrites something exactly when the pattern occurs at some index |
| Paths.ReplaceAllKeepsSuffix | translator.py:73 | When the replacement ends with the pattern, a string ending with the pattern still ends with it after the rewrite |
| Paths.OutputPathProperties | translator.py:73 | For a path that passes the extension check, the output path rewrites at least one `.ext`, is exactly 9 characters longer per occurrence, never equals the input, and itself passes the extension check |
| Paths.ExtensionCaseSensitivity | translator.py:16-20 | `X.XLF` is refused for extension `xlf`; `x.xlf` is accepted for `XLF`; `x.XLF` is refused for `XLF` |
| Paths.OutputPathRewritesDirectories | translator.py:73 | A directory named like the file's extension is renamed too: `d.xlf/a.xlf` becomes `d.modified.xlf/a.modified.xlf` |
| Translation.TranslateText | translator.py:5-11 | On success the result is the client's answer; when the client raises, the result is the input text, and no failure escapes |
| Translation.FailingBackendIsIdentity | translator.py:7-11 | With a client that always raises, translation leaves every text as it was |
| Xliff.FindChild | translator.py:42-43 | The lookup finds nothing exactly when no direct child has the tag; otherwise it returns the first index holding that tag, and that index is the only one it can return |
| Xliff.CreatedTargetIsNotNamespaced | translator.py:51 | The tag of a created target differs from the namespaced `target` tag the lookup uses |
| Reconciler.Mirror | translator.py:63-69 | One new element per source child, in order, each with the same tag, attributes and untranslated inline text, no children, and a tail that is the translated tail exactly when the source child's tail is a non-empty string, else `None` |
| Reconciler.ReconcileUnit | translator.py:42-69 | The unit itself keeps its tag, attributes, text and tail. With no namespaced source, nothing changes. If the first namespaced target has text, nothing changes. With a source and no target, exactly one new plain `target` appears right after the source, holding the translated source text and the mirrors, and all other children stay in place. With a target whose text is `None`, that target gets the translated source text and the mirrors after its own children, and every other child, the source included, is unchanged |
| Reconciler.CreateTarget | translator.py:50-52 | Inserting the created target adds exactly one child, right after the source, and keeps the children before and after it in place |
| Reconciler.FillTarget | translator.py:57-66 | Filling an existing target changes only that child, keeping the number of children |
| Reconciler.FillWithoutTranslation | translator.py:59-69 | If translation changes nothing, the filled target's text is the source text, and each mirror is the source child without children, its tail kept only when it is non-empty |
| Reconciler.Walk | translator.py:41-69 | The walk never changes an element's own tag, attributes, text or tail, and keeps the number of children of every element that is not a trans-unit |
| Reconciler.ProcessDocument | translator.py:41 | The root is never treated as a unit: its own fields and its number of children are unchanged, and every child of the root with no trans-unit in it is left as it was, even when the root is itself a trans-unit |
| Reconciler.WalkWithoutUnits | translator.py:41 | A subtree with no trans-unit comes out of the walk unchanged |
| Reconciler.UnitFreeSubtreeKept | translator.py:41-69 | Any subtree without trans-units (a `header`, a `note`, a unit-free `group`) reached from the root through no trans-unit is found at the same place in the output, exactly as read |
| Reconciler.DocumentWithoutUnits | translator.py:41 | A document with no trans-unit below the root is written back exactly as read |
| Reconciler.WalkReconcilesUnit | translator.py:41-69 | A trans-unit with no trans-unit below it is transformed by exactly one unit step |
| Reconciler.WalkAlongPath | translator.py:41 | Along a path of child indices that passes through no trans-unit, the walked tree has the same path, and what it holds at the end is the walk of the input's subtree there |
| Reconciler.DocumentReconcilesUnit | translator.py:41-69 | Every trans-unit below the root, at any depth, with no trans-unit above it (the root aside) and none below it, is found at the same path in the output and has gone through exactly one unit step; every element on the way down keeps its own tag, attributes, text and tail and its number of children |
| Reconciler.NamespacedTargetIsStable | translator.py:43-57 | Once a unit with a namespaced target has been filled with a text, a further unit step changes nothing |
| Reconciler.SecondPassAddsAnotherTarget | translator.py:50-52 | After a target has been created, the unit still has no namespaced target, so a second step inserts another one: two more children than at the start |
| Reconciler.MixedContentExample | translator.py:57-69 | `<source>Hello<bpt id="1">x</bpt>world</source>` gains `<target>Hola<bpt id="1">x</bpt>mundo</target>` right after the source |
| Processor.ProcessXliff | translator.py:13-80 | The call raises the extension error, with its message, exactly when the path fails the check. It returns nothing after a read error or a parse error, exactly when loading fails that way. It returns an output path only after a successful parse and write, and that path is the rewritten, strictly longer path under which the processed document was written |
| Processor.ExtensionCheckedBeforeRead | translator.py:16-28 | For a path that fails the check, the outcome does not depend on the file system or the translation client |
| Processor.FailedTranslationKeepsSource | translator.py:59-69 | With a client that always raises, a unit still gets its target, holding the untranslated source text and the source children's non-empty tails |

## Left out

- Reading and writing the file, and their error returns (translator.py:22-28, 74-78), are parameters of `ProcessXliff`: `load` and `write`.
- XML parsing, XPath and namespace resolution, and pretty-printed serialisation with an XML declaration are library calls. The model works on the parsed tree, with namespaced tags as plain `{uri}local` strings.
- The `GoogleTranslator` call is a network client. It is the `backend` parameter. Its behaviour on `None` text and on particular language names is up to it. Modelling it as a function assumes that the same text and languages always give the same answer, or always fail: a client that fails once and succeeds on a later call, or a quota that runs out partway through a document, would make the result depend on the order of the calls, which the model does not capture.
- Console logging through `print` has no effect on the result.
- The example invocation at the end of the script (translator.py:82-93) runs with fixed paths and is not modelled.
- Comments and processing instructions among an element's children are not modelled. Only element children are.
- Processor.ProcessXliff: does not model the exceptions the trans-unit loop can raise, after which nothing is written: a `TypeError` from `etree.Element(elem.tag, ...)` at translator.py:64 when a source child is a comment or processing instruction (its tag is not a string), and a `ValueError` from lxml at translator.py:60 and :69 when the client returns a string that is not XML-compatible (NUL or control characters). The model's elements have string tags, and it stores any string the client returns.
- Paths.Lower: does not model Unicode case mapping, because `str.lower` follows the Unicode tables and the extensions this script is meant for (`xml`, `xlf`, `xliff`) are ASCII.
- Reconciler.Mirror: attributes are a `map`, so the order of attributes that lxml keeps is not modelled.
- Reconciler.Walk: the model visits a unit's children before the unit itself, while the script visits units in document order. The two give the same tree, for this reason: a unit reads only its source's direct children and its target's text, and no other unit changes those; this also relies on the client answering the same way whenever it is called. This argument is in the comment on `Walk`; it is not proved.
