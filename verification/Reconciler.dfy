/** The trans-unit pass of `process_xliff`: every `trans-unit` below the
    root whose `source` exists gets a `target` (created right after the
    source when missing); a target without text receives the translated
    source text and a shallow mirror of each source child. */
module Reconciler {
  import opened Wrappers
  import opened Translation
  import opened Xliff

  /** Python truthiness of a text value: present and non-empty. */
  predicate NonEmpty(t: Text) {
    t.Some? && |t.value| > 0
  }

  /** `m` mirrors the source child `c`: same tag, same attributes, the same
      inline text copied untranslated, no children of its own, and a tail
      that is the translated tail exactly when `c`'s tail is a non-empty
      string. */
  predicate IsMirror(m: Element, c: Element, tr: Text -> Text) {
    && m.tag == c.tag
    && m.attrs == c.attrs
    && m.text == c.text
    && m.children == []
    && m.tail == (if NonEmpty(c.tail) then tr(c.tail) else None)
  }

  /** The new elements appended to a target, one per source child, in order. */
  function Mirror(cs: seq<Element>, tr: Text -> Text): (r: seq<Element>)
    ensures |r| == |cs|
    ensures forall i :: 0 <= i < |cs| ==> IsMirror(r[i], cs[i], tr)
  {
    seq(|cs|, i requires 0 <= i < |cs| =>
      Element(cs[i].tag, cs[i].attrs, cs[i].text, [],
              if NonEmpty(cs[i].tail) then tr(cs[i].tail) else None))
  }

  /** `f` is `before` after filling from `source`: its own tag, attributes and
      tail kept, its text the translated source text, its existing children
      kept in front, followed by a mirror of each source child in order. */
  predicate IsFilled(f: Element, before: Element, source: Element, tr: Text -> Text) {
    && f.tag == before.tag
    && f.attrs == before.attrs
    && f.tail == before.tail
    && f.text == tr(source.text)
    && |f.children| == |before.children| + |source.children|
    && f.children[..|before.children|] == before.children
    && forall i :: 0 <= i < |source.children| ==>
         IsMirror(f.children[|before.children| + i], source.children[i], tr)
  }

  /** A fill whose translation changes nothing copies the source text, and
      each mirror is the source child without its children and with its tail
      dropped unless it was a non-empty string. */
  lemma FillWithoutTranslation(f: Element, before: Element, source: Element, tr: Text -> Text)
    requires forall t :: tr(t) == t
    requires IsFilled(f, before, source, tr)
    ensures f.text == source.text
    ensures forall i :: 0 <= i < |source.children| ==>
      f.children[|before.children| + i]
        == source.children[i].(children := [], tail := if NonEmpty(source.children[i].tail) then source.children[i].tail else None)
  {
  }

  function Fill(target: Element, source: Element, tr: Text -> Text): Element {
    target.(text := tr(source.text), children := target.children + Mirror(source.children, tr))
  }

  /** `etree.Element('target')`: un-namespaced, no attributes, no text. */
  const EmptyTarget: Element := Element(CreatedTargetTag, map[], None, [], None)

  /** The element itself (tag, attributes, text, tail) is the same. */
  predicate SameHeader(a: Element, b: Element) {
    a.tag == b.tag && a.attrs == b.attrs && a.text == b.text && a.tail == b.tail
  }

  /** One iteration of the trans-unit loop, on the unit `u`. */
  function ReconcileUnit(u: Element, tr: Text -> Text): (r: Element)
    ensures SameHeader(r, u)
    // No namespaced source: the unit is left exactly as it was.
    ensures !HasChildTagged(u.children, SourceTag) ==> r == u
    // The first namespaced target already has text: nothing changes.
    ensures HasChildTagged(u.children, TargetTag) ==>
      var t := FindChild(u.children, TargetTag).value;
      u.children[t].text.Some? ==> r == u
    // Source but no namespaced target: exactly one new, filled, plain
    // `target` element right after the first source; every other child
    // stays put.
    ensures HasChildTagged(u.children, SourceTag) && !HasChildTagged(u.children, TargetTag) ==>
      var s := FindChild(u.children, SourceTag).value;
      && |r.children| == |u.children| + 1
      && r.children[..s + 1] == u.children[..s + 1]
      && r.children[s + 2..] == u.children[s + 1..]
      && IsFilled(r.children[s + 1], EmptyTarget, u.children[s], tr)
    // Source and a namespaced target without text: the first target is
    // filled in place and every other child, the source included, stays put.
    ensures HasChildTagged(u.children, SourceTag) && HasChildTagged(u.children, TargetTag) ==>
      var s := FindChild(u.children, SourceTag).value;
      var t := FindChild(u.children, TargetTag).value;
      u.children[t].text.None? ==>
        && |r.children| == |u.children|
        && (forall k :: 0 <= k < |u.children| && k != t ==> r.children[k] == u.children[k])
        && IsFilled(r.children[t], u.children[t], u.children[s], tr)
  {
    match FindChild(u.children, SourceTag)
    case None => u
    case Some(s) =>
      match FindChild(u.children, TargetTag)
      case None => CreateTarget(u, s, tr)
      case Some(t) => if u.children[t].text.Some? then u else FillTarget(u, s, t, tr)
  }

  /** `source.addnext(etree.Element('target'))`, then the fill. */
  function CreateTarget(u: Element, s: nat, tr: Text -> Text): (r: Element)
    requires s < |u.children|
    ensures SameHeader(r, u)
    ensures |r.children| == |u.children| + 1
    ensures r.children[..s + 1] == u.children[..s + 1]
    ensures r.children[s + 2..] == u.children[s + 1..]
    ensures IsFilled(r.children[s + 1], EmptyTarget, u.children[s], tr)
  {
    var filled := Fill(EmptyTarget, u.children[s], tr);
    var r := u.(children := u.children[..s + 1] + [filled] + u.children[s + 1..]);
    assert r.children[s + 1] == filled;
    assert filled.children[..0] == [];
    r
  }

  /** The fill of an existing target, at index `t`, from the source at `s`. */
  function FillTarget(u: Element, s: nat, t: nat, tr: Text -> Text): (r: Element)
    requires s < |u.children| && t < |u.children|
    ensures SameHeader(r, u)
    ensures |r.children| == |u.children|
    ensures forall k :: 0 <= k < |u.children| && k != t ==> r.children[k] == u.children[k]
    ensures IsFilled(r.children[t], u.children[t], u.children[s], tr)
  {
    var filled := Fill(u.children[t], u.children[s], tr);
    assert filled.children[..|u.children[t].children|] == u.children[t].children;
    u.(children := u.children[t := filled])
  }

  /** The pass over one element and everything below it. Children are
      processed before the unit that holds them; a unit reads only its
      source's direct children (tag, attributes, text, tail) and its target's
      text, which no other unit changes, so this gives the same tree as
      visiting the units in document order. Elements the pass creates are
      never visited. */
  function Walk(e: Element, tr: Text -> Text): (r: Element)
    ensures SameHeader(r, e)
    ensures e.tag != TransUnitTag ==> |r.children| == |e.children|
    decreases e
  {
    var inner := e.(children := seq(|e.children|, i requires 0 <= i < |e.children| => Walk(e.children[i], tr)));
    if e.tag == TransUnitTag then ReconcileUnit(inner, tr) else inner
  }

  /** The whole pass: `root.xpath(".//ns:trans-unit")` finds units strictly
      below the root, so the root itself is never treated as one. */
  function ProcessDocument(root: Element, tr: Text -> Text): (r: Element)
    ensures SameHeader(r, root)
    ensures |r.children| == |root.children|
    // Even when the root is itself a trans-unit, a child of the root
    // without trans-units (its source or target, say) is left as it was.
    ensures forall i :: 0 <= i < |root.children| && !ContainsUnit(root.children[i]) ==>
      r.children[i] == root.children[i]
  {
    ChildrenWithoutUnits(root.children, tr);
    root.(children := seq(|root.children|, i requires 0 <= i < |root.children| => Walk(root.children[i], tr)))
  }

  /** `e` or some element below it is a trans-unit. */
  predicate ContainsUnit(e: Element)
    decreases e
  {
    e.tag == TransUnitTag || exists i :: 0 <= i < |e.children| && ContainsUnit(e.children[i])
  }

  /** A subtree without trans-units passes through unchanged. */
  lemma {:induction false} WalkWithoutUnits(e: Element, tr: Text -> Text)
    requires !ContainsUnit(e)
    ensures Walk(e, tr) == e
    decreases e
  {
    forall i | 0 <= i < |e.children|
      ensures Walk(e.children[i], tr) == e.children[i]
    {
      WalkWithoutUnits(e.children[i], tr);
    }
    assert Walk(e, tr).children == e.children;
  }

  /** Helper: each child without trans-units passes through the walk unchanged. */
  lemma ChildrenWithoutUnits(cs: seq<Element>, tr: Text -> Text)
    ensures forall i :: 0 <= i < |cs| && !ContainsUnit(cs[i]) ==> Walk(cs[i], tr) == cs[i]
  {
    forall i | 0 <= i < |cs| && !ContainsUnit(cs[i])
      ensures Walk(cs[i], tr) == cs[i]
    {
      WalkWithoutUnits(cs[i], tr);
    }
  }

  /** A trans-unit with no trans-unit below it is handled by exactly one
      unit step. */
  lemma WalkReconcilesUnit(e: Element, tr: Text -> Text)
    requires e.tag == TransUnitTag
    requires forall i :: 0 <= i < |e.children| ==> !ContainsUnit(e.children[i])
    ensures Walk(e, tr) == ReconcileUnit(e, tr)
  {
    forall i | 0 <= i < |e.children|
      ensures Walk(e.children[i], tr) == e.children[i]
    {
      WalkWithoutUnits(e.children[i], tr);
    }
    assert e.(children := seq(|e.children|, i requires 0 <= i < |e.children| => Walk(e.children[i], tr))) == e;
  }

  /** `p` is a sequence of child indices that can be followed down from `e`. */
  predicate ValidPath(e: Element, p: seq<nat>)
    decreases |p|
  {
    |p| == 0 || (p[0] < |e.children| && ValidPath(e.children[p[0]], p[1..]))
  }

  /** The element reached from `e` by following the child indices `p`. */
  function At(e: Element, p: seq<nat>): Element
    requires ValidPath(e, p)
    decreases |p|
  {
    if |p| == 0 then e else At(e.children[p[0]], p[1..])
  }

  /** `p` can be followed down from `e`, and no element it passes through
      before its end, `e` included, is a trans-unit. */
  predicate PathAvoidsUnits(e: Element, p: seq<nat>): (b: bool)
    ensures b ==> ValidPath(e, p)
    decreases |p|
  {
    |p| == 0 || (e.tag != TransUnitTag && p[0] < |e.children| && PathAvoidsUnits(e.children[p[0]], p[1..]))
  }

  /** `e` is a trans-unit with no trans-unit below it. */
  predicate InnermostUnit(e: Element) {
    e.tag == TransUnitTag && forall i :: 0 <= i < |e.children| ==> !ContainsUnit(e.children[i])
  }

  /** Along a path that passes through no trans-unit, the walk reaches the
      same place, and what it leaves there is the walk of the subtree found
      there in the input. */
  lemma {:induction false} WalkAlongPath(e: Element, p: seq<nat>, tr: Text -> Text)
    requires PathAvoidsUnits(e, p)
    ensures ValidPath(Walk(e, tr), p)
    ensures At(Walk(e, tr), p) == Walk(At(e, p), tr)
    decreases |p|
  {
    if |p| > 0 {
      var c := e.children[p[0]];
      WalkAlongPath(c, p[1..], tr);
      assert Walk(e, tr).children[p[0]] == Walk(c, tr);
    }
  }

  /** Every trans-unit below the root with no trans-unit above it (the root
      aside) and none below it goes through exactly one unit step, wherever
      it sits under `file`, `body` or `group` elements; every element on the
      way down keeps its own tag, attributes, text and tail, and its number
      of children. */
  lemma DocumentReconcilesUnit(root: Element, p: seq<nat>, tr: Text -> Text)
    requires 0 < |p| && p[0] < |root.children| && PathAvoidsUnits(root.children[p[0]], p[1..])
    requires InnermostUnit(At(root, p))
    ensures ValidPath(ProcessDocument(root, tr), p)
    ensures At(ProcessDocument(root, tr), p) == ReconcileUnit(At(root, p), tr)
    ensures forall k :: 0 <= k < |p| ==>
      && ValidPath(root, p[..k]) && ValidPath(ProcessDocument(root, tr), p[..k])
      && SameHeader(At(ProcessDocument(root, tr), p[..k]), At(root, p[..k]))
      && |At(ProcessDocument(root, tr), p[..k]).children| == |At(root, p[..k]).children|
  {
    var r := ProcessDocument(root, tr);
    var c := root.children[p[0]];
    WalkAlongPath(c, p[1..], tr);
    assert r.children[p[0]] == Walk(c, tr);
    WalkReconcilesUnit(At(c, p[1..]), tr);
    forall k | 0 <= k < |p|
      ensures ValidPath(root, p[..k]) && ValidPath(r, p[..k])
      ensures SameHeader(At(r, p[..k]), At(root, p[..k]))
      ensures |At(r, p[..k]).children| == |At(root, p[..k]).children|
    {
      if k > 0 {
        var q := p[1..][..k - 1];
        assert p[..k] == [p[0]] + q;
        assert p[..k][1..] == q;
        PrefixAvoidsUnits(c, p[1..], k - 1);
        WalkAlongPath(c, q, tr);
      }
    }
  }

  /** A proper prefix of a path that avoids trans-units ends at an element
      that is not a trans-unit, and avoids them too. */
  lemma {:induction false} PrefixAvoidsUnits(e: Element, p: seq<nat>, k: nat)
    requires PathAvoidsUnits(e, p) && k < |p|
    ensures PathAvoidsUnits(e, p[..k])
    ensures At(e, p[..k]).tag != TransUnitTag
    decreases k
  {
    if k > 0 {
      PrefixAvoidsUnits(e.children[p[0]], p[1..], k - 1);
      assert p[..k][1..] == p[1..][..k - 1];
    }
  }

  /** Everything outside the trans-units passes through as read: a subtree
      without trans-units (a `header`, a `note`, a unit-free `group`) that
      is reached through no trans-unit comes out of the pass unchanged, at
      the same place. */
  lemma UnitFreeSubtreeKept(root: Element, p: seq<nat>, tr: Text -> Text)
    requires 0 < |p| && p[0] < |root.children| && PathAvoidsUnits(root.children[p[0]], p[1..])
    requires !ContainsUnit(At(root, p))
    ensures ValidPath(ProcessDocument(root, tr), p)
    ensures At(ProcessDocument(root, tr), p) == At(root, p)
  {
    var c := root.children[p[0]];
    WalkAlongPath(c, p[1..], tr);
    WalkWithoutUnits(At(c, p[1..]), tr);
    assert ProcessDocument(root, tr).children[p[0]] == Walk(c, tr);
  }

  /** A document without trans-units below its root is written back as read. */
  lemma DocumentWithoutUnits(root: Element, tr: Text -> Text)
    requires forall i :: 0 <= i < |root.children| ==> !ContainsUnit(root.children[i])
    ensures ProcessDocument(root, tr) == root
  {
  }

  /** A unit whose target is found by its namespaced tag is stable once it
      has been filled with a text: running the unit step again changes
      nothing. */
  lemma NamespacedTargetIsStable(u: Element, tr: Text -> Text)
    requires HasChildTagged(u.children, SourceTag) && HasChildTagged(u.children, TargetTag)
    requires forall s :: FirstWithTag(u.children, SourceTag, s) ==> tr(u.children[s].text).Some?
    ensures ReconcileUnit(ReconcileUnit(u, tr), tr) == ReconcileUnit(u, tr)
  {
  }

  /** The created target has the plain tag `target`, which the namespaced
      lookup does not find: a second pass over the same unit creates yet
      another target after the source. */
  lemma SecondPassAddsAnotherTarget(u: Element, tr: Text -> Text)
    requires HasChildTagged(u.children, SourceTag) && !HasChildTagged(u.children, TargetTag)
    ensures !HasChildTagged(ReconcileUnit(u, tr).children, TargetTag)
    ensures |ReconcileUnit(ReconcileUnit(u, tr), tr).children| == |u.children| + 2
  {
    var s := FindChild(u.children, SourceTag).value;
    var r := ReconcileUnit(u, tr);
    assert r == CreateTarget(u, s, tr);
    CreatedTargetNotFound(u, s, tr);
    assert ReconcileUnit(r, tr) == CreateTarget(r, s, tr);
  }

  /** Helper for the lemma above: after a target is created, the source is
      still the first source and no namespaced target exists. */
  lemma CreatedTargetNotFound(u: Element, s: nat, tr: Text -> Text)
    requires FirstWithTag(u.children, SourceTag, s) && !HasChildTagged(u.children, TargetTag)
    ensures FirstWithTag(CreateTarget(u, s, tr).children, SourceTag, s)
    ensures !HasChildTagged(CreateTarget(u, s, tr).children, TargetTag)
  {
    var cs := CreateTarget(u, s, tr).children;
    CreatedTargetIsNotNamespaced();
    forall k | 0 <= k < |cs|
      ensures cs[k].tag != TargetTag
    {
      if k < s + 1 {
        assert cs[k] == cs[..s + 1][k];
      } else if k > s + 1 {
        assert cs[k] == cs[s + 2..][k - (s + 2)];
      }
    }
    forall k | 0 <= k <= s
      ensures cs[k] == u.children[k]
    {
      assert cs[k] == cs[..s + 1][k];
    }
  }

  /** Mixed content: the unit `<source>Hello<bpt id="1">x</bpt>world</source>`
      gains `<target>Hola<bpt id="1">x</bpt>mundo</target>` right after its
      source: the text and the tail are translated, the inline text `x` is
      copied as it is. */
  lemma MixedContentExample(tr: Text -> Text)
    requires tr(Some("Hello")) == Some("Hola") && tr(Some("world")) == Some("mundo")
    ensures
      var bpt := Element(Qualified("bpt"), map["id" := "1"], Some("x"), [], Some("world"));
      var source := Element(SourceTag, map[], Some("Hello"), [bpt], None);
      var unit := Element(TransUnitTag, map[], None, [source], None);
      var target := Element(CreatedTargetTag, map[], Some("Hola"), [bpt.(tail := Some("mundo"))], None);
      ReconcileUnit(unit, tr) == unit.(children := [source, target])
  {
    var bpt := Element(Qualified("bpt"), map["id" := "1"], Some("x"), [], Some("world"));
    var source := Element(SourceTag, map[], Some("Hello"), [bpt], None);
    var unit := Element(TransUnitTag, map[], None, [source], None);
    assert FirstWithTag(unit.children, SourceTag, 0);
    assert !HasChildTagged(unit.children, TargetTag) by {
      assert Qualified("source") != Qualified("target") by {
        assert Qualified("source")[|Qualified("source")| - 6] != Qualified("target")[|Qualified("target")| - 6];
      }
    }
    assert NonEmpty(bpt.tail);
    var target := Element(CreatedTargetTag, map[], Some("Hola"), [bpt.(tail := Some("mundo"))], None);
    var r := ReconcileUnit(unit, tr);
    assert r.children[..1] == [source];
    var f := r.children[1];
    assert IsMirror(f.children[0], bpt, tr);
    assert f.children == [bpt.(tail := Some("mundo"))];
    assert f == target;
    assert r.children == [source, target];
  }
}
