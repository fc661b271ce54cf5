/**
 * `Deserialize for Element` through `ElementVisitor`: a string becomes text; an
 * array becomes a tag whose first item is its name, whose second item is taken
 * as the attributes object when it is one and as the first child otherwise,
 * and whose remaining items are its further children.
 */
module Decoder {
  import opened Results
  import opened Markup
  import opened Json

  /** Why a wire value is not an element. */
  datatype DecodeError =
    | MissingName       // the array is empty, so the tag has no "name"
    | NoVariantMatched  // the second item is neither an attributes object nor an element
    | InvalidType       // a value of the wrong JSON kind where a string or an array was needed

  /** The derived, untagged deserialisation of an attribute value: a string, a
      number, a boolean or null, and nothing else. */
  function DecodeValue(j: Json): (r: Option<AttributeValue>)
    ensures r.Some? <==> IsScalar(j)
    ensures r.Some? ==> (r.value.Str? <==> j.JStr?) && (r.value.Number? <==> j.JNum?)
                        && (r.value.Bool? <==> j.JBool?)
  {
    match j
    case JStr(s) => Some(Str(s))
    case JNum(n) => Some(Number(n))
    case JBool(b) => Some(Bool(b))
    case JNull => Some(Null)
    case _ => None
  }

  /** An attributes map is read from an object whose every member is a scalar. */
  function DecodeAttributes(j: Json): (r: Option<Attributes>)
    ensures r.Some? <==> j.JObj? && forall k | k in j.fields :: IsScalar(j.fields[k])
    ensures r.Some? ==> r.value.Keys == j.fields.Keys
    ensures r.Some? ==> forall k | k in r.value :: DecodeValue(j.fields[k]) == Some(r.value[k])
  {
    if j.JObj? && forall k | k in j.fields :: DecodeValue(j.fields[k]).Some? then
      Some(map k | k in j.fields :: DecodeValue(j.fields[k]).value)
    else
      None
  }

  /** What the second item of a tag's array turned out to be. */
  datatype AttributesOrElement = Attrs(attributes: Attributes) | Elem(element: Element)

  /** The untagged `AttributesOrElement`: the attributes shape is tried first,
      the element shape only when that fails, and when both fail the item is
      rejected (the error of the element attempt is not kept). */
  function DecodeAttributesOrElement(j: Json): (r: Result<AttributesOrElement, DecodeError>)
    ensures r.Ok? && r.value.Attrs? <==> DecodeAttributes(j).Some?
    ensures r.Ok? && r.value.Attrs? ==> r.value.attributes == DecodeAttributes(j).value
    ensures r.Ok? && r.value.Elem? <==> DecodeAttributes(j).None? && Decode(j).Ok?
    ensures r.Ok? && r.value.Elem? ==> Decode(j) == Ok(r.value.element)
    ensures r.Err? ==> r.error == NoVariantMatched
    decreases j, 3
  {
    match DecodeAttributes(j)
    case Some(attributes) => Ok(Attrs(attributes))
    case None =>
      match Decode(j)
      case Ok(element) => Ok(Elem(element))
      case Err(_) => Err(NoVariantMatched)
  }

  /** An element from its wire form: `visit_str` for a string, `visit_seq` for
      an array; any other JSON value is of the wrong type. */
  function Decode(j: Json): (r: Result<Element, DecodeError>)
    ensures j.JStr? ==> r == Ok(Text(j.s))
    ensures !j.JStr? && !j.JArr? ==> r == Err(InvalidType)
    ensures r.Ok? && r.value.Node? ==> j.JArr? && |j.items| >= 1 && j.items[0] == JStr(r.value.tag.name)
    decreases j, 2
  {
    match j
    case JStr(s) => Ok(Text(s))
    case JArr(items) => DecodeTag(items)
    case _ => Err(InvalidType)
  }

  /** `visit_seq`: the name, then the attributes or the first child, then the
      remaining children. */
  function DecodeTag(items: seq<Json>): (r: Result<Element, DecodeError>)
    ensures r.Ok? ==> r.value.Node? && |items| >= 1 && items[0] == JStr(r.value.tag.name)
    decreases items, 1
  {
    if |items| == 0 then Err(MissingName)
    else if !items[0].JStr? then Err(InvalidType)
    else if |items| == 1 then Ok(Node(Tag(items[0].s, map[], [])))
    else
      var second :- DecodeAttributesOrElement(items[1]);
      var rest :- DecodeElements(items[2..]);
      match second
      case Attrs(attributes) => Ok(Node(Tag(items[0].s, attributes, rest)))
      case Elem(element) => Ok(Node(Tag(items[0].s, map[], [element] + rest)))
  }

  /** Every item decoded as an element, in order; the first item that fails
      fails the whole list with its own error. */
  function DecodeElements(items: seq<Json>): (r: Result<seq<Element>, DecodeError>)
    ensures r.Ok? ==> |r.value| == |items|
    decreases items, 0
  {
    if items == [] then Ok([])
    else
      var elements :- DecodeElements(items[..|items| - 1]);
      var last :- Decode(items[|items| - 1]);
      Ok(elements + [last])
  }

  /** The children list item by item: it decodes exactly when every item
      decodes, each child is its own item's decoding, and a failure carries
      the error of the first item that fails. */
  lemma {:induction false} DecodeElementsPointwise(items: seq<Json>)
    ensures DecodeElements(items).Ok? <==> forall i | 0 <= i < |items| :: Decode(items[i]).Ok?
    ensures DecodeElements(items).Ok? ==>
      forall i | 0 <= i < |items| :: Decode(items[i]) == Ok(DecodeElements(items).value[i])
    ensures DecodeElements(items).Err? ==> exists i | 0 <= i < |items| ::
      Decode(items[i]) == Err(DecodeElements(items).error) && forall k | 0 <= k < i :: Decode(items[k]).Ok?
  {
    if items != [] {
      var init := items[..|items| - 1];
      assert forall i | 0 <= i < |init| :: init[i] == items[i];
      DecodeElementsPointwise(init);
    }
  }

  /** The deserialiser as the source runs it. */
  method Deserialize(j: Json) returns (r: Result<Element, DecodeError>)
    ensures r == Decode(j)
    decreases j, 2
  {
    match j
    case JStr(s) =>
      r := Ok(Text(s));
    case JArr(items) =>
      r := VisitSeq(items);
    case _ =>
      r := Err(InvalidType);
  }

  /** `visit_seq` as the source runs it: the name is read, then the second
      item, and then the remaining items are read one by one and pushed onto
      the element list until the array is exhausted. */
  method VisitSeq(items: seq<Json>) returns (r: Result<Element, DecodeError>)
    ensures r == DecodeTag(items)
    decreases items, 1
  {
    if |items| == 0 {
      return Err(MissingName);
    }
    if !items[0].JStr? {
      return Err(InvalidType);
    }
    var name := items[0].s;
    if |items| == 1 {
      return Ok(Node(Tag(name, map[], [])));
    }
    var second := DecodeAttributesOrElement(items[1]);
    if second.Err? {
      return Err(second.error);
    }
    var attributes: Attributes := map[];
    var elementList: seq<Element> := [];
    if second.value.Attrs? {
      attributes := second.value.attributes;
    } else {
      elementList := [second.value.element];
    }
    ghost var first := elementList;
    ghost var rest: seq<Element> := [];
    for i := 2 to |items|
      invariant DecodeElements(items[2..i]) == Ok(rest)
      invariant elementList == first + rest
    {
      var element := Deserialize(items[i]);
      assert items[2..i + 1] == items[2..i] + [items[i]];
      DecodeElementsSnoc(items[2..i], items[i]);
      if element.Err? {
        assert items[2..][..i - 1] == items[2..i + 1];
        DecodeElementsStopsAtFailure(items[2..], i - 1);
        return Err(element.error);
      }
      rest := rest + [element.value];
      elementList := elementList + [element.value];
    }
    assert items[2..|items|] == items[2..];
    assert DecodeElements(items[2..]) == Ok(rest);
    DecodeTagOk(items, second.value, rest);
    if second.value.Attrs? {
      assert elementList == rest;
    } else {
      assert elementList == [second.value.element] + rest;
    }
    return Ok(Node(Tag(name, attributes, elementList)));
  }

  /** Decoding one more item extends the decoded list by that item, or fails
      with that item's error. */
  lemma DecodeElementsSnoc(items: seq<Json>, item: Json)
    requires DecodeElements(items).Ok?
    ensures Decode(item).Ok? ==> DecodeElements(items + [item]) == Ok(DecodeElements(items).value + [Decode(item).value])
    ensures Decode(item).Err? ==> DecodeElements(items + [item]) == Err(Decode(item).error)
  {
    assert (items + [item])[..|items|] == items;
  }

  /** Once a prefix fails, the whole list fails with the same error: later
      items are never looked at. */
  lemma {:induction false} DecodeElementsStopsAtFailure(items: seq<Json>, n: nat)
    requires n <= |items|
    requires DecodeElements(items[..n]).Err?
    ensures DecodeElements(items) == DecodeElements(items[..n])
    decreases |items| - n
  {
    if n < |items| {
      assert items[..n + 1][..n] == items[..n];
      DecodeElementsStopsAtFailure(items, n + 1);
    } else {
      assert items[..n] == items;
    }
  }

  /** `visit_seq` on an array of two or more items whose second item and
      remaining items all decode. */
  lemma DecodeTagOk(items: seq<Json>, second: AttributesOrElement, rest: seq<Element>)
    requires |items| >= 2 && items[0].JStr?
    requires DecodeAttributesOrElement(items[1]) == Ok(second)
    requires DecodeElements(items[2..]) == Ok(rest)
    ensures second.Attrs? ==> DecodeTag(items) == Ok(Node(Tag(items[0].s, second.attributes, rest)))
    ensures second.Elem? ==> DecodeTag(items) == Ok(Node(Tag(items[0].s, map[], [second.element] + rest)))
  {
  }

  /** The errors about the name: an empty array has no name, and a first item
      that is not a string is of the wrong type; a lone name is a tag with no
      attributes and no children. */
  lemma DecodeNameRules(items: seq<Json>)
    ensures items == [] ==> Decode(JArr(items)) == Err(MissingName)
    ensures items != [] && !items[0].JStr? ==> Decode(JArr(items)) == Err(InvalidType)
    ensures |items| == 1 && items[0].JStr? ==> Decode(JArr(items)) == Ok(Node(Tag(items[0].s, map[], [])))
  {
  }

  /** The decoding priority for the item after the name: an attributes object
      becomes the attributes; anything else that decodes as an element becomes
      the first child and leaves the attributes empty; anything else fails the
      whole array. In both successful cases every later item is a child. */
  lemma DecodePriority(name: string, second: Json, rest: seq<Json>)
    ensures var r := Decode(JArr([JStr(name), second] + rest));
      && (IsAttributesObject(second) ==>
            (r.Ok? <==> DecodeElements(rest).Ok?)
            && (r.Ok? ==> r.value == Node(Tag(name, DecodeAttributes(second).value, DecodeElements(rest).value))))
      && (!IsAttributesObject(second) && Decode(second).Ok? ==>
            (r.Ok? <==> DecodeElements(rest).Ok?)
            && (r.Ok? ==> r.value == Node(Tag(name, map[], [Decode(second).value] + DecodeElements(rest).value))))
      && (!IsAttributesObject(second) && Decode(second).Err? ==> r == Err(NoVariantMatched))
  {
    var items := [JStr(name), second] + rest;
    assert items[1] == second && items[2..] == rest;
  }
}
