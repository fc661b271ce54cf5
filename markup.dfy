/**
 * The JsonML markup tree: an element is either a run of text or a tag with a
 * name, an attribute map and an ordered list of child elements.
 */
module Markup {

  /** The bit pattern of an IEEE-754 single-precision float (Rust `f32`).
      Only equality of numbers matters to this model. */
  datatype Float32 = Float32(bits: bv32)

  /** The value of one attribute: a string, a number, a boolean or null. */
  datatype AttributeValue =
    | Str(s: string)
    | Number(n: Float32)
    | Bool(b: bool)
    | Null

  /** Attribute names are unique; the source keeps them in a hash map. */
  type Attributes = map<string, AttributeValue>

  /** A tag: its name is not checked here, only when it is rendered. */
  datatype Tag = Tag(name: string, attributes: Attributes, elementList: seq<Element>)

  /** A node of the tree: a tag, or literal text. */
  datatype Element = Node(tag: Tag) | Text(text: string)

  /** The number of tags on the longest path from `e` down to a leaf. */
  function Height(e: Element): (h: nat)
    ensures e.Text? <==> h == 0
    ensures e.Node? ==> forall i | 0 <= i < |e.tag.elementList| :: Height(e.tag.elementList[i]) < h
  {
    match e
    case Text(_) => 0
    case Node(t) => 1 + MaxHeight(t.elementList)
  }

  /** The greatest height among `es`, or 0 when there are none. */
  function MaxHeight(es: seq<Element>): (m: nat)
    ensures forall i | 0 <= i < |es| :: Height(es[i]) <= m
  {
    if es == [] then 0
    else
      var h := Height(es[|es| - 1]);
      var rest := MaxHeight(es[..|es| - 1]);
      assert forall i | 0 <= i < |es| - 1 :: es[..|es| - 1][i] == es[i];
      if h < rest then rest else h
  }
}
