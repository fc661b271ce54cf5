/**
 * The encoder and the decoder are inverse: every element survives a trip
 * through its wire form, and every decodable wire value that carries no empty
 * attributes object is exactly the encoding of what it decodes to.
 */
module RoundTrip {
  import opened Results
  import opened Markup
  import opened Json
  import opened Encoder
  import opened Decoder

  /** An attribute value read back from its encoding is the same value. */
  lemma DecodeEncodeValue(v: AttributeValue)
    ensures DecodeValue(EncodeValue(v)) == Some(v)
  {
  }

  /** An attributes map read back from its encoding is the same map. */
  lemma DecodeEncodeAttributes(a: Attributes)
    ensures DecodeAttributes(JObj(EncodeAttributes(a))) == Some(a)
  {
    var fields := EncodeAttributes(a);
    forall k | k in fields
      ensures DecodeValue(fields[k]) == Some(a[k])
    {
      DecodeEncodeValue(a[k]);
    }
    assert (map k | k in fields :: DecodeValue(fields[k]).value) == a;
  }

  /** Decoding the encoding of an element gives the element back. The
      attributes object is written only when the map is non-empty, and an
      encoded child is never an object, so the first child is never mistaken
      for attributes. */
  lemma {:induction false} DecodeEncode(e: Element)
    ensures Decode(Encode(e)) == Ok(e)
    decreases e, 1
  {
    match e
    case Text(_) =>
    case Node(Tag(name, attributes, elementList)) =>
      var items := EncodeTag(e.tag);
      if attributes != map[] {
        DecodeEncodeAttributes(attributes);
        assert items[2..] == EncodeAll(elementList);
        DecodeEncodeAll(elementList);
        DecodeTagOk(items, Attrs(attributes), elementList);
      } else if elementList != [] {
        var first := elementList[0];
        DecodeEncode(first);
        assert items[1] == Encode(first);
        assert items[2..] == EncodeAll(elementList[1..]);
        DecodeEncodeAll(elementList[1..]);
        DecodeTagOk(items, Elem(first), elementList[1..]);
        assert [first] + elementList[1..] == elementList;
      } else {
        assert items == [JStr(name)];
      }
  }

  /** A list of children read back from its encoding is the same list. */
  lemma {:induction false} DecodeEncodeAll(es: seq<Element>)
    ensures DecodeElements(EncodeAll(es)) == Ok(es)
    decreases es, 0
  {
    var items := EncodeAll(es);
    forall i | 0 <= i < |items|
      ensures Decode(items[i]) == Ok(es[i])
    {
      DecodeEncode(es[i]);
    }
    DecodeElementsPointwise(items);
    var decoded := DecodeElements(items).value;
    assert forall i | 0 <= i < |es| :: decoded[i] == es[i];
    assert decoded == es;
  }

  /** A wire value in which no tag's second item is an empty object `{}`;
      only such values are the encoding of some element. */
  predicate NoEmptyAttributesObject(j: Json) {
    match j
    case JArr(items) =>
      && (|items| >= 2 && items[1].JObj? ==> items[1].fields != map[])
      && forall i | 1 <= i < |items| :: NoEmptyAttributesObject(items[i])
    case _ => true
  }

  /** An encoded attribute value read back from the wire is the same scalar. */
  lemma EncodeDecodeValue(j: Json)
    requires IsScalar(j)
    ensures EncodeValue(DecodeValue(j).value) == j
  {
  }

  /** An attributes object read from the wire and encoded again is the same object. */
  lemma EncodeDecodeAttributes(j: Json)
    requires IsAttributesObject(j)
    ensures EncodeAttributes(DecodeAttributes(j).value) == j.fields
  {
    var attributes := DecodeAttributes(j).value;
    forall k | k in j.fields
      ensures EncodeValue(attributes[k]) == j.fields[k]
    {
      EncodeDecodeValue(j.fields[k]);
    }
  }

  /** Encoding what a wire value decodes to gives that wire value back,
      provided it carries no empty attributes object (`["a", {}]` decodes to
      the same tag as `["a"]`). */
  lemma {:induction false} EncodeDecode(j: Json)
    requires Decode(j).Ok?
    requires NoEmptyAttributesObject(j)
    ensures Encode(Decode(j).value) == j
    decreases j, 1
  {
    match j
    case JStr(_) =>
    case JArr(items) =>
      if |items| >= 2 {
        assert [items[0], items[1]] + items[2..] == items;
        var second := DecodeAttributesOrElement(items[1]).value;
        var rest := DecodeElements(items[2..]).value;
        DecodeTagOk(items, second, rest);
        assert forall i | 0 <= i < |items[2..]| :: items[2..][i] == items[i + 2];
        EncodeDecodeAll(items[2..]);
        match second
        case Attrs(attributes) =>
          EncodeDecodeAttributes(items[1]);
          assert EncodeTag(Decode(j).value.tag) == [items[0], items[1]] + items[2..];
        case Elem(element) =>
          EncodeDecode(items[1]);
          EncodeAllCons(element, rest);
          assert EncodeTag(Decode(j).value.tag) == [items[0], items[1]] + items[2..];
      } else {
        assert items == [JStr(items[0].s)];
        assert Decode(j).value == Node(Tag(items[0].s, map[], []));
      }
  }

  /** Encoding a list with a first child in front puts that child's encoding in front. */
  lemma EncodeAllCons(first: Element, rest: seq<Element>)
    ensures EncodeAll([first] + rest) == [Encode(first)] + EncodeAll(rest)
  {
    var encoded := EncodeAll([first] + rest);
    assert forall i | 1 <= i < |encoded| :: encoded[i] == Encode(rest[i - 1]);
  }

  /** Children read from the wire and encoded again are the same items. */
  lemma {:induction false} EncodeDecodeAll(items: seq<Json>)
    requires DecodeElements(items).Ok?
    requires forall i | 0 <= i < |items| :: NoEmptyAttributesObject(items[i])
    ensures EncodeAll(DecodeElements(items).value) == items
    decreases items, 0
  {
    var decoded := DecodeElements(items).value;
    DecodeElementsPointwise(items);
    forall i | 0 <= i < |items|
      ensures Encode(decoded[i]) == items[i]
    {
      EncodeDecode(items[i]);
    }
  }
}
