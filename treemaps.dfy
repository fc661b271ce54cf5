/**
 * The two deprecated tree rewrites of `Element`: `map_bottom_up` rewrites the
 * children first and then the tag itself, `map_top_down` rewrites a node first
 * and then descends into the children of what it produced.
 */
module TreeMaps {
  import opened Results
  import opened Markup

  /** `map_bottom_up`: text is returned as it is; a tag has every child mapped
      first, and the function is applied once to the rebuilt tag. */
  function MapBottomUp(e: Element, f: Element -> Element): (r: Element)
    ensures e.Text? ==> r == e
  {
    match e
    case Text(_) => e
    case Node(Tag(name, attributes, elementList)) =>
      f(Node(Tag(name, attributes, MapBottomUpAll(elementList, f))))
  }

  /** The children of a tag, each mapped bottom-up, in their order. */
  function MapBottomUpAll(es: seq<Element>, f: Element -> Element): (rs: seq<Element>)
    ensures |rs| == |es|
    ensures forall i | 0 <= i < |es| :: rs[i] == MapBottomUp(es[i], f)
  {
    seq(|es|, i requires 0 <= i < |es| => MapBottomUp(es[i], f))
  }

  /** `map_bottom_up` with the identity function gives back its input. */
  lemma {:induction false} MapBottomUpIdentity(e: Element)
    ensures MapBottomUp(e, x => x) == e
  {
    match e
    case Text(_) =>
    case Node(Tag(name, attributes, elementList)) =>
      forall i | 0 <= i < |elementList|
        ensures MapBottomUp(elementList[i], x => x) == elementList[i]
      {
        MapBottomUpIdentity(elementList[i]);
      }
      assert MapBottomUpAll(elementList, x => x) == elementList;
  }

  /** `map_bottom_up` never applies its function to text: two functions that
      agree on every tag give the same result. */
  lemma {:induction false} MapBottomUpIgnoresText(e: Element, f: Element -> Element, g: Element -> Element)
    requires forall x: Element :: x.Node? ==> f(x) == g(x)
    ensures MapBottomUp(e, f) == MapBottomUp(e, g)
  {
    match e
    case Text(_) =>
    case Node(Tag(name, attributes, elementList)) =>
      forall i | 0 <= i < |elementList|
        ensures MapBottomUp(elementList[i], f) == MapBottomUp(elementList[i], g)
      {
        MapBottomUpIgnoresText(elementList[i], f, g);
      }
      assert MapBottomUpAll(elementList, f) == MapBottomUpAll(elementList, g);
  }

  /** `map_top_down`: the function is applied to `e` first; when the result is
      a tag, its children are mapped top-down in turn. The recursion need not
      end (the function may keep growing the tree), so `fuel` bounds its depth
      and `None` means the bound was reached. */
  function MapTopDown(e: Element, f: Element -> Element, fuel: nat): (r: Option<Element>)
    ensures r.Some? ==> (r.value.Text? <==> f(e).Text?)
    ensures r.Some? && f(e).Text? ==> r.value == f(e)
    ensures r.Some? && f(e).Node? ==>
      r.value.tag.name == f(e).tag.name && r.value.tag.attributes == f(e).tag.attributes
      && |r.value.tag.elementList| == |f(e).tag.elementList|
    decreases fuel, 0
  {
    if fuel == 0 then None
    else
      var element := f(e);
      match element
      case Text(_) => Some(element)
      case Node(Tag(name, attributes, elementList)) =>
        var mapped :- MapTopDownAll(elementList, f, fuel - 1);
        Some(Node(Tag(name, attributes, mapped)))
  }

  /** The children of a rewritten tag, each mapped top-down, in their order;
      `None` as soon as one of them runs out of fuel. */
  function MapTopDownAll(es: seq<Element>, f: Element -> Element, fuel: nat): (r: Option<seq<Element>>)
    ensures r.Some? ==> |r.value| == |es|
    decreases fuel, 1, |es|
  {
    if es == [] then Some([])
    else
      var mappedInit :- MapTopDownAll(es[..|es| - 1], f, fuel);
      var last :- MapTopDown(es[|es| - 1], f, fuel);
      Some(mappedInit + [last])
  }

  /** The children list child by child: it is mapped exactly when every child
      is, and each result is that child's own top-down mapping. */
  lemma {:induction false} MapTopDownAllPointwise(es: seq<Element>, f: Element -> Element, fuel: nat)
    ensures MapTopDownAll(es, f, fuel).Some? <==> forall i | 0 <= i < |es| :: MapTopDown(es[i], f, fuel).Some?
    ensures MapTopDownAll(es, f, fuel).Some? ==>
      forall i | 0 <= i < |es| :: MapTopDown(es[i], f, fuel) == Some(MapTopDownAll(es, f, fuel).value[i])
    decreases |es|
  {
    if es != [] {
      var init := es[..|es| - 1];
      MapTopDownAllPointwise(init, f, fuel);
      assert forall i | 0 <= i < |init| :: init[i] == es[i];
    }
  }

  /** Fuel only decides whether `map_top_down` finishes, never what it gives:
      a run that finishes finishes with the same tree given more fuel. */
  lemma {:induction false} MapTopDownFuelMonotone(e: Element, f: Element -> Element, fuel: nat, more: nat)
    requires fuel <= more
    requires MapTopDown(e, f, fuel).Some?
    ensures MapTopDown(e, f, more) == MapTopDown(e, f, fuel)
    decreases fuel, 0
  {
    match f(e)
    case Text(_) =>
    case Node(Tag(name, attributes, elementList)) =>
      MapTopDownAllFuelMonotone(elementList, f, fuel - 1, more - 1);
  }

  /** The same for a list of children. */
  lemma {:induction false} MapTopDownAllFuelMonotone(es: seq<Element>, f: Element -> Element, fuel: nat, more: nat)
    requires fuel <= more
    requires MapTopDownAll(es, f, fuel).Some?
    ensures MapTopDownAll(es, f, more) == MapTopDownAll(es, f, fuel)
    decreases fuel, 1, |es|
  {
    if es != [] {
      MapTopDownAllFuelMonotone(es[..|es| - 1], f, fuel, more);
      MapTopDownFuelMonotone(es[|es| - 1], f, fuel, more);
    }
  }

  /** `map_top_down` with the identity function gives back its input once the
      recursion may go one level deeper than the tree. */
  lemma {:induction false} MapTopDownIdentity(e: Element, f: Element -> Element, fuel: nat)
    requires forall x :: f(x) == x
    requires Height(e) < fuel
    ensures MapTopDown(e, f, fuel) == Some(e)
    decreases fuel, 0
  {
    assert f(e) == e;
    match e
    case Text(_) =>
    case Node(t) =>
      assert forall i | 0 <= i < |t.elementList| :: Height(t.elementList[i]) < Height(e);
      MapTopDownAllIdentity(t.elementList, f, fuel - 1);
  }

  /** The same for a list of children, all shorter than the fuel. */
  lemma {:induction false} MapTopDownAllIdentity(es: seq<Element>, f: Element -> Element, fuel: nat)
    requires forall x :: f(x) == x
    requires forall i | 0 <= i < |es| :: Height(es[i]) < fuel
    ensures MapTopDownAll(es, f, fuel) == Some(es)
    decreases fuel, 1, |es|
  {
    if es != [] {
      var init := es[..|es| - 1];
      assert forall i | 0 <= i < |init| :: init[i] == es[i];
      MapTopDownAllIdentity(init, f, fuel);
      MapTopDownIdentity(es[|es| - 1], f, fuel);
      assert init + [es[|es| - 1]] == es;
    }
  }
}
