/**
 * `Serialize for Element`: a text node becomes a bare string; a tag becomes an
 * array holding its name, then its attributes object when it has any, then
 * each child's encoding in order.
 */
module Encoder {
  import opened Markup
  import opened Json

  /** The derived, untagged serialisation of an attribute value. */
  function EncodeValue(v: AttributeValue): (j: Json)
    ensures IsScalar(j)
  {
    match v
    case Str(s) => JStr(s)
    case Number(n) => JNum(n)
    case Bool(b) => JBool(b)
    case Null => JNull
  }

  /** The attributes object: the same keys, each value encoded. */
  function EncodeAttributes(a: Attributes): (fields: map<string, Json>)
    ensures fields.Keys == a.Keys
    ensures forall k | k in fields :: IsScalar(fields[k])
  {
    map k | k in a :: EncodeValue(a[k])
  }

  /** The wire form of an element. It is never an object, which is what lets
      a decoder tell an encoded first child from an attributes object. */
  function Encode(e: Element): (j: Json)
    ensures j.JStr? || j.JArr?
    ensures j.JArr? ==> |j.items| >= 1 && j.items[0].JStr?
  {
    match e
    case Text(s) => JStr(s)
    case Node(t) => JArr(EncodeTag(t))
  }

  /** The items of a tag's array: the name, the attributes object only when
      the map is non-empty, then the children. */
  function EncodeTag(t: Tag): (items: seq<Json>)
    ensures |items| == 1 + (if t.attributes == map[] then 0 else 1) + |t.elementList|
    ensures items[0] == JStr(t.name)
    ensures t.attributes != map[] ==> items[1] == JObj(EncodeAttributes(t.attributes))
    ensures items[if t.attributes == map[] then 1 else 2..] == EncodeAll(t.elementList)
  {
    var header := if t.attributes == map[] then [JStr(t.name)]
                  else [JStr(t.name), JObj(EncodeAttributes(t.attributes))];
    header + EncodeAll(t.elementList)
  }

  /** The length announced to the serialiser before a tag's items are
      written, as the source computes it: one for the name, one per attribute
      and one per child. */
  function LengthHintAsWritten(t: Tag): (n: nat)
    ensures n >= |t.elementList| + 1
    ensures t.attributes == map[] ==> n == |EncodeTag(t)|
  {
    1 + |t.attributes| + |t.elementList|
  }

  /** The announced length is wrong for a tag with two attributes: the
      attributes are written as one object, so two items follow a hint of
      three. */
  lemma LengthHintOvercounts()
    ensures var t := Tag("li", map["title" := Str("t"), "style" := Str("s")], []);
      LengthHintAsWritten(t) == 3 && |EncodeTag(t)| == 2
  {
    var t := Tag("li", map["title" := Str("t"), "style" := Str("s")], []);
    assert t.attributes.Keys == {"title", "style"};
  }

  /** The length hint counting the attributes object as the one item it is;
      it is the number of items the serialiser writes. */
  function LengthHint(t: Tag): (n: nat)
    ensures n == |EncodeTag(t)|
    ensures n == 1 + |t.elementList| <==> t.attributes == map[]
  {
    1 + (if t.attributes == map[] then 0 else 1) + |t.elementList|
  }

  /** Each element encoded, in order. */
  function EncodeAll(es: seq<Element>): (js: seq<Json>)
    ensures |js| == |es|
    ensures forall i | 0 <= i < |es| :: js[i] == Encode(es[i])
  {
    seq(|es|, i requires 0 <= i < |es| => Encode(es[i]))
  }

  /** The serialiser's steps, with the corrected length hint: a string for
      text; for a tag, the name is pushed, then the attributes object when the
      map is non-empty, then each child as it is serialised in turn. */
  method Serialize(e: Element) returns (j: Json)
    ensures j == Encode(e)
  {
    match e
    case Text(s) =>
      j := JStr(s);
    case Node(Tag(name, attributes, elementList)) =>
      var hint := LengthHint(Tag(name, attributes, elementList));
      var items := [JStr(name)];
      if attributes != map[] {
        items := [JStr(name), JObj(EncodeAttributes(attributes))];
      }
      ghost var header := items;
      for i := 0 to |elementList|
        invariant items == header + EncodeAll(elementList[..i])
      {
        var child := Serialize(elementList[i]);
        EncodeAllSnoc(elementList, i);
        items := items + [child];
      }
      assert elementList[..|elementList|] == elementList;
      assert items == EncodeTag(Tag(name, attributes, elementList));
      assert |items| == hint;
      j := JArr(items);
  }

  /** Encoding one more child of a prefix appends its encoding. */
  lemma EncodeAllSnoc(es: seq<Element>, i: nat)
    requires i < |es|
    ensures EncodeAll(es[..i + 1]) == EncodeAll(es[..i]) + [Encode(es[i])]
  {
    var a := EncodeAll(es[..i + 1]);
    var b := EncodeAll(es[..i]) + [Encode(es[i])];
    assert |a| == |b|;
    forall k | 0 <= k < |a|
      ensures a[k] == b[k]
    {
      assert es[..i + 1][k] == if k < i then es[..i][k] else es[i];
    }
  }
}
