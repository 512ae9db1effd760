/** The XML tree as the translation pass sees it, and the XLIFF 1.2 element
    names it looks for. Tags are written the way lxml reports them: a
    namespaced name as `{uri}local`, an un-namespaced one as `local`. */
module Xliff {
  import opened Wrappers

  /** A Python text value: a `str`, or `None` (element text and tail may be
      absent, and the pass translates them as they are). */
  type Text = Option<string>

  /** The XLIFF 1.2 document namespace (section 2 of the XLIFF 1.2 specification). */
  const Namespace: string := "urn:oasis:names:tc:xliff:document:1.2"

  /** A name in the XLIFF namespace, in lxml's `{uri}local` notation. */
  function Qualified(local: string): string {
    "{" + Namespace + "}" + local
  }

  const TransUnitTag: string := Qualified("trans-unit")
  const SourceTag: string := Qualified("source")
  const TargetTag: string := Qualified("target")

  /** The tag of a target the pass creates itself: plain `target`, outside
      the XLIFF namespace. */
  const CreatedTargetTag: string := "target"

  /** An XML element: its tag, attributes, leading text, child elements in
      document order, and the tail text that follows its closing tag. */
  datatype Element = Element(
    tag: string,
    attrs: map<string, string>,
    text: Text,
    children: seq<Element>,
    tail: Text)

  /** Index `i` holds the first child with tag `tag`. */
  predicate FirstWithTag(cs: seq<Element>, tag: string, i: int) {
    0 <= i < |cs| && cs[i].tag == tag && forall j :: 0 <= j < i ==> cs[j].tag != tag
  }

  /** Some child has tag `tag`. */
  predicate HasChildTagged(cs: seq<Element>, tag: string) {
    exists j :: 0 <= j < |cs| && cs[j].tag == tag
  }

  /** `parent.find(tag)`: the index of the first direct child with that tag. */
  function FindChild(cs: seq<Element>, tag: string): (r: Option<nat>)
    ensures r.None? <==> !HasChildTagged(cs, tag)
    ensures r.Some? ==> FirstWithTag(cs, tag, r.value)
    ensures forall i :: FirstWithTag(cs, tag, i) ==> r == Some(i)
  {
    if |cs| == 0 then None
    else if cs[0].tag == tag then Some(0)
    else match FindChild(cs[1..], tag)
      case None => None
      case Some(k) => Some(k + 1)
  }

  /** The target the pass creates is not found again by a lookup of the
      namespaced `target` tag. */
  lemma CreatedTargetIsNotNamespaced()
    ensures CreatedTargetTag != TargetTag
  {
  }
}
