/**
 * The behaviour the repository's own tests pin down, stated for the model:
 * the wire forms of `serde_test` tokens, the two JsonML examples decoded from
 * JSON, and the HTML renderings and rejections.
 */
module Examples {
  import opened Results
  import opened Markup
  import opened Json
  import opened Encoder
  import opened Decoder
  import opened Html
  import RoundTrip

  /** The `li` tag with a `style` attribute and one text child. */
  function StyledItem(): Element {
    Node(Tag("li", map["style" := Str("color:red")], [Text("First Item")]))
  }

  /** The one-entry `style` object decodes to the one-entry attributes. */
  lemma DecodeStyle()
    ensures DecodeAttributes(JObj(map["style" := JStr("color:red")])) == Some(map["style" := Str("color:red")])
    ensures DecodeAttributesOrElement(JObj(map["style" := JStr("color:red")])) ==
      Ok(Attrs(map["style" := Str("color:red")]))
  {
    var j := JObj(map["style" := JStr("color:red")]);
    assert IsScalar(j.fields["style"]);
    var a := DecodeAttributes(j).value;
    assert a.Keys == {"style"};
    assert DecodeValue(j.fields["style"]) == Some(a["style"]);
    assert a == map["style" := Str("color:red")];
  }

  /** A single text child decodes to a single text node. */
  lemma DecodeOneText(s: string)
    ensures DecodeElements([JStr(s)]) == Ok([Text(s)])
  {
    var none: seq<Json> := [];
    var noElements: seq<Element> := [];
    DecodeElementsSnoc(none, JStr(s));
    assert none + [JStr(s)] == [JStr(s)];
    assert noElements + [Text(s)] == [Text(s)];
  }

  /** A tag with attributes and children is an array of name, object and
      children, and reads back as the same tag. */
  lemma WireFormOfStyledItem()
    ensures Encode(StyledItem()) ==
      JArr([JStr("li"), JObj(map["style" := JStr("color:red")]), JStr("First Item")])
    ensures Decode(Encode(StyledItem())) == Ok(StyledItem())
  {
    var t := StyledItem().tag;
    assert "style" in t.attributes;
    assert EncodeAttributes(t.attributes) == map["style" := JStr("color:red")];
    var items := [JStr("li"), JObj(map["style" := JStr("color:red")]), JStr("First Item")];
    assert EncodeTag(t) == items;
    assert items[2..] == [JStr("First Item")];
    DecodeStyle();
    DecodeOneText("First Item");
    DecodeTagOk(items, Attrs(map["style" := Str("color:red")]), [Text("First Item")]);
  }

  /** A tag with neither attributes nor children is a one-item array. */
  lemma WireFormOfBareTag()
    ensures Encode(Node(Tag("li", map[], []))) == JArr([JStr("li")])
    ensures Decode(JArr([JStr("li")])) == Ok(Node(Tag("li", map[], [])))
  {
  }

  /** A tag with attributes and no children is an array of name and object. */
  lemma WireFormOfTagWithoutChildren()
    ensures Encode(Node(Tag("li", map["style" := Str("color:red")], []))) ==
      JArr([JStr("li"), JObj(map["style" := JStr("color:red")])])
    ensures Decode(JArr([JStr("li"), JObj(map["style" := JStr("color:red")])])) ==
      Ok(Node(Tag("li", map["style" := Str("color:red")], [])))
  {
    var e := Node(Tag("li", map["style" := Str("color:red")], []));
    assert "style" in e.tag.attributes;
    assert EncodeAttributes(e.tag.attributes) == map["style" := JStr("color:red")];
    var items := [JStr("li"), JObj(map["style" := JStr("color:red")])];
    assert EncodeTag(e.tag) == items;
    assert items[2..] == [];
    DecodeStyle();
    DecodeTagOk(items, Attrs(map["style" := Str("color:red")]), []);
  }

  /** A bare string is a text node. */
  lemma WireFormOfText()
    ensures Decode(JStr("First Item")) == Ok(Text("First Item"))
  {
  }

  /** The rejections the decoder itself raises. */
  lemma DecodeRejections()
    ensures Decode(JArr([])) == Err(MissingName)
    ensures Decode(JArr([JBool(true)])) == Err(InvalidType)
    ensures Decode(JArr([JStr("a"), JNull])) == Err(NoVariantMatched)
    ensures Decode(JArr([JStr("a"), JObj(map["b" := JArr([])])])) == Err(NoVariantMatched)
    ensures Decode(JArr([JStr("a"), JArr([])])) == Err(NoVariantMatched)
    ensures Decode(JArr([JStr("a"), JStr("b"), JArr([])])) == Err(MissingName)
    ensures Decode(JNull) == Err(InvalidType)
  {
    var obj := JObj(map["b" := JArr([])]);
    assert !IsScalar(obj.fields["b"]);
    assert DecodeAttributes(obj).None?;
    var bad := JArr([JStr("a"), JStr("b"), JArr([])]);
    assert bad.items[2..] == [JArr([])];
    assert [JArr([])][..0] == [];
  }

  /** A tag whose children are all encoded as given. */
  lemma EncodeNode(t: Tag, children: seq<Json>)
    requires |children| == |t.elementList|
    requires forall i | 0 <= i < |children| :: children[i] == Encode(t.elementList[i])
    ensures t.attributes == map[] ==> Encode(Node(t)) == JArr([JStr(t.name)] + children)
    ensures t.attributes != map[] ==>
      Encode(Node(t)) == JArr([JStr(t.name), JObj(EncodeAttributes(t.attributes))] + children)
  {
    assert EncodeAll(t.elementList) == children;
    if t.attributes != map[] {
      var head := [JStr(t.name), JObj(EncodeAttributes(t.attributes))];
      assert [JStr(t.name)] + [JObj(EncodeAttributes(t.attributes))] == head;
      assert EncodeTag(t) == head + children;
    } else {
      assert EncodeTag(t) == [JStr(t.name)] + [] + children;
      assert [JStr(t.name)] + [] == [JStr(t.name)];
    }
  }

  /** The bulleted list of the JsonML site, as the decoder must build it. */
  function BulletList(): Element {
    Node(Tag("ul", map[], [
      Node(Tag("li", map["style" := Str("color:red")], [Text("First Item")])),
      Node(Tag("li", map["title" := Str("Some hover text."), "style" := Str("color:green")],
               [Text("Second Item")])),
      Node(Tag("li", map[], [
        Node(Tag("span", map["class" := Str("code-example-third")], [Text("Third")])),
        Text(" Item")]))]))
  }

  /** The bulleted list as JSON. The third item's first child is an element,
      not an attributes object. */
  function BulletListJson(): Json {
    JArr([JStr("ul"),
      JArr([JStr("li"), JObj(map["style" := JStr("color:red")]), JStr("First Item")]),
      JArr([JStr("li"), JObj(map["title" := JStr("Some hover text."), "style" := JStr("color:green")]),
            JStr("Second Item")]),
      JArr([JStr("li"),
            JArr([JStr("span"), JObj(map["class" := JStr("code-example-third")]), JStr("Third")]),
            JStr(" Item")])])
  }

  lemma EncodeFirstItem()
    ensures Encode(BulletList().tag.elementList[0]) == BulletListJson().items[1]
  {
    var t := BulletList().tag.elementList[0].tag;
    assert "style" in t.attributes;
    assert EncodeAttributes(t.attributes) == map["style" := JStr("color:red")];
    EncodeNode(t, [JStr("First Item")]);
  }

  lemma EncodeSecondItem()
    ensures Encode(BulletList().tag.elementList[1]) == BulletListJson().items[2]
  {
    var t := BulletList().tag.elementList[1].tag;
    assert "style" in t.attributes;
    assert EncodeAttributes(t.attributes) ==
      map["title" := JStr("Some hover text."), "style" := JStr("color:green")];
    EncodeNode(t, [JStr("Second Item")]);
  }

  lemma EncodeThirdItem()
    ensures Encode(BulletList().tag.elementList[2]) == BulletListJson().items[3]
  {
    var t := BulletList().tag.elementList[2].tag;
    var span := t.elementList[0].tag;
    assert "class" in span.attributes;
    assert EncodeAttributes(span.attributes) == map["class" := JStr("code-example-third")];
    EncodeNode(span, [JStr("Third")]);
    EncodeNode(t, [BulletListJson().items[3].items[1], JStr(" Item")]);
  }

  /** The bulleted list's JSON decodes to the expected tree; in particular the
      `span` after the third item's name becomes its first child. */
  lemma BulletListExample()
    ensures Decode(BulletListJson()) == Ok(BulletList())
  {
    EncodeFirstItem();
    EncodeSecondItem();
    EncodeThirdItem();
    var items := BulletListJson().items;
    EncodeNode(BulletList().tag, items[1..]);
    assert [items[0]] + items[1..] == items;
    RoundTrip.DecodeEncode(BulletList());
  }

  /** A `td` cell of the JsonML site's colorful table. */
  function Cell(style: string, children: seq<Element>): Element {
    Node(Tag("td", map["class" := Str("MyTD"), "style" := Str(style)], children))
  }

  /** A cell as JSON. */
  function CellJson(style: string, children: seq<Json>): Json {
    JArr([JStr("td"), JObj(map["class" := JStr("MyTD"), "style" := JStr(style)])] + children)
  }

  /** A `tr` row of two cells, with no attributes. */
  function Row(first: Element, second: Element): Element {
    Node(Tag("tr", map[], [first, second]))
  }

  /** The colorful table of the JsonML site, as the decoder must build it. */
  function ColorfulTable(): Element {
    Node(Tag("table", map["class" := Str("MyTable"), "style" := Str("background-color:yellow")], [
      Row(Cell("border:1px solid black", [Text("#550758")]),
          Cell("background-color:red", [Text("Example text here")])),
      Row(Cell("border:1px solid black", [Text("#993101")]),
          Cell("background-color:green", [Text("127624015")])),
      Row(Cell("border:1px solid black", [Text("#E33D87")]),
          Cell("background-color:blue", [
            Text("\U{00A0}"),
            Node(Tag("span", map["style" := Str("background-color:maroon")], [Text("\U{00A9}")])),
            Text("\U{00A0}")]))]))
  }

  /** The colorful table as JSON: each row's first item after its name is a
      cell, not an attributes object. */
  function ColorfulTableJson(): Json {
    JArr([JStr("table"), JObj(map["class" := JStr("MyTable"), "style" := JStr("background-color:yellow")]),
      JArr([JStr("tr"),
            CellJson("border:1px solid black", [JStr("#550758")]),
            CellJson("background-color:red", [JStr("Example text here")])]),
      JArr([JStr("tr"),
            CellJson("border:1px solid black", [JStr("#993101")]),
            CellJson("background-color:green", [JStr("127624015")])]),
      JArr([JStr("tr"),
            CellJson("border:1px solid black", [JStr("#E33D87")]),
            CellJson("background-color:blue", [
              JStr("\U{00A0}"),
              JArr([JStr("span"), JObj(map["style" := JStr("background-color:maroon")]), JStr("\U{00A9}")]),
              JStr("\U{00A0}")])])])
  }

  lemma EncodeCell(style: string, children: seq<Element>, js: seq<Json>)
    requires |js| == |children|
    requires forall i | 0 <= i < |js| :: js[i] == Encode(children[i])
    ensures Encode(Cell(style, children)) == CellJson(style, js)
  {
    var t := Cell(style, children).tag;
    assert "class" in t.attributes;
    assert EncodeAttributes(t.attributes) == map["class" := JStr("MyTD"), "style" := JStr(style)];
    EncodeNode(t, js);
  }

  lemma EncodeRow(first: Element, second: Element)
    ensures Encode(Row(first, second)) == JArr([JStr("tr"), Encode(first), Encode(second)])
  {
    EncodeNode(Row(first, second).tag, [Encode(first), Encode(second)]);
  }

  lemma EncodeLastCell()
    ensures Encode(ColorfulTable().tag.elementList[2].tag.elementList[1]) == ColorfulTableJson().items[4].items[2]
  {
    var span := Node(Tag("span", map["style" := Str("background-color:maroon")], [Text("\U{00A9}")]));
    assert "style" in span.tag.attributes;
    assert EncodeAttributes(span.tag.attributes) == map["style" := JStr("background-color:maroon")];
    EncodeNode(span.tag, [JStr("\U{00A9}")]);
    var obj := JObj(map["style" := JStr("background-color:maroon")]);
    assert [JStr("span"), obj] + [JStr("\U{00A9}")] == [JStr("span"), obj, JStr("\U{00A9}")];
    EncodeCell("background-color:blue", [Text("\U{00A0}"), span, Text("\U{00A0}")],
      [JStr("\U{00A0}"), Encode(span), JStr("\U{00A0}")]);
  }

  lemma EncodeFirstRow()
    ensures Encode(ColorfulTable().tag.elementList[0]) == ColorfulTableJson().items[2]
  {
    EncodeCell("border:1px solid black", [Text("#550758")], [JStr("#550758")]);
    EncodeCell("background-color:red", [Text("Example text here")], [JStr("Example text here")]);
    EncodeRow(Cell("border:1px solid black", [Text("#550758")]),
              Cell("background-color:red", [Text("Example text here")]));
  }

  lemma EncodeSecondRow()
    ensures Encode(ColorfulTable().tag.elementList[1]) == ColorfulTableJson().items[3]
  {
    EncodeCell("border:1px solid black", [Text("#993101")], [JStr("#993101")]);
    EncodeCell("background-color:green", [Text("127624015")], [JStr("127624015")]);
    EncodeRow(Cell("border:1px solid black", [Text("#993101")]),
              Cell("background-color:green", [Text("127624015")]));
  }

  lemma EncodeThirdRow()
    ensures Encode(ColorfulTable().tag.elementList[2]) == ColorfulTableJson().items[4]
  {
    var row := ColorfulTable().tag.elementList[2];
    EncodeCell("border:1px solid black", [Text("#E33D87")], [JStr("#E33D87")]);
    EncodeLastCell();
    EncodeRow(row.tag.elementList[0], row.tag.elementList[1]);
  }

  /** The colorful table's JSON decodes to the expected tree. */
  lemma ColorfulTableExample()
    ensures Decode(ColorfulTableJson()) == Ok(ColorfulTable())
  {
    var items := ColorfulTableJson().items;
    EncodeFirstRow();
    EncodeSecondRow();
    EncodeThirdRow();
    var t := ColorfulTable().tag;
    assert "class" in t.attributes;
    assert EncodeAttributes(t.attributes) ==
      map["class" := JStr("MyTable"), "style" := JStr("background-color:yellow")];
    EncodeNode(t, items[2..]);
    assert [items[0], items[1]] + items[2..] == items;
    RoundTrip.DecodeEncode(ColorfulTable());
  }

  /** Whatever order the host's map iterates in, a one-entry map yields its
      one entry. */
  lemma IterateSingleton(h: Host, key: string, value: AttributeValue)
    requires ValidHost(h)
    ensures h.iterate(map[key := value]) == [(key, value)]
  {
    var m := map[key := value];
    var entries := h.iterate(m);
    assert Enumerates(entries, m);
    EnumerationLength(entries, m);
    assert entries[0].0 in m;
  }

  /** One attribute whose name is valid, written in full. */
  lemma AttributesTextOne(key: string, value: AttributeValue, h: Host)
    requires IsValidAttributeName(key)
    ensures AttributesText([(key, value)], h) == Ok(AttributeText(key, value, h))
  {
    assert [(key, value)][..0] == [];
    assert "" + AttributeText(key, value, h) == AttributeText(key, value, h);
  }

  /** A one-child list renders as that child. */
  lemma RenderAllOne(a: Element, h: Host)
    requires Render(a, h).Ok?
    ensures RenderAll([a], h) == Render(a, h)
  {
    assert [a][..0] == [];
    assert "" + Render(a, h).value == Render(a, h).value;
  }

  /** Two children rendered one after the other. */
  lemma RenderPair(a: Element, b: Element, h: Host)
    requires Render(a, h).Ok? && Render(b, h).Ok?
    ensures RenderAll([a, b], h) == Ok(Render(a, h).value + Render(b, h).value)
  {
    assert [a, b][..1] == [a];
    RenderAllOne(a, h);
  }

  /** A tag without attributes around one text child. */
  lemma RenderSpan(h: Host)
    ensures Render(Node(Tag("span", map[], [Text("ccc")])), h) == Ok("<span>ccc</span>")
  {
    assert IsValidTagName("span") by {
      assert "span"[0] == 's' && "span"[1] == 'p' && "span"[2] == 'a' && "span"[3] == 'n';
    }
    RenderAllOne(Text("ccc"), h);
    assert "<" + "span" + "" + ">" + "ccc" + "</" + "span" + ">" == "<span>ccc</span>";
  }

  /** The children of the `div` example: a text node, then the `span`. */
  lemma RenderDivChildren(h: Host)
    ensures RenderAll([Text("bbb"), Node(Tag("span", map[], [Text("ccc")]))], h) == Ok("bbb<span>ccc</span>")
  {
    RenderSpan(h);
    RenderPair(Text("bbb"), Node(Tag("span", map[], [Text("ccc")])), h);
    assert "bbb" + "<span>ccc</span>" == "bbb<span>ccc</span>";
  }

  /** The attributes of the `div` example. */
  lemma RenderDivAttributes(h: Host)
    requires ValidHost(h)
    requires h.escapeUnquoted("aaa") == "aaa"
    ensures AttributesText(h.iterate(map["id" := Str("aaa")]), h) == Ok(" id=\"aaa\"")
  {
    IterateSingleton(h, "id", Str("aaa"));
    assert IsValidAttributeName("id") by {
      assert "id"[0] == 'i' && "id"[1] == 'd';
    }
    AttributesTextOne("id", Str("aaa"), h);
    assert " " + "id" + "=\"" + "aaa" + "\"" == " id=\"aaa\"";
  }

  /** A tag renders as its name, its attributes and its children between an
      opening and a closing tag, and text is written as it is. */
  lemma DisplayElementExample(h: Host)
    requires ValidHost(h)
    requires h.escapeUnquoted("aaa") == "aaa"
    ensures Render(Node(Tag("div", map["id" := Str("aaa")],
                            [Text("bbb"), Node(Tag("span", map[], [Text("ccc")]))])), h)
      == Ok("<div id=\"aaa\">bbb<span>ccc</span></div>")
  {
    RenderDivAttributes(h);
    RenderDivChildren(h);
    assert IsValidTagName("div") by {
      assert "div"[0] == 'd' && "div"[1] == 'i' && "div"[2] == 'v';
    }
    assert "id" in map["id" := Str("aaa")];
    DivText();
  }

  /** The pieces of the `div` example put together. */
  lemma DivText()
    ensures "<" + "div" + " id=\"aaa\"" + ">" + "bbb<span>ccc</span>" + "</" + "div" + ">"
      == "<div id=\"aaa\">bbb<span>ccc</span></div>"
  {
    TagText("div", " id=\"aaa\"", "bbb<span>ccc</span>");
    var start := "<div id=\"aaa\">";
    assert "<" + "div" + " id=\"aaa\"" + ">" == start;
    assert "</" + "div" + ">" == "</div>";
    assert start + "bbb<span>ccc</span>" + "</div>" == "<div id=\"aaa\">bbb<span>ccc</span></div>";
  }

  /** A tag name outside the ASCII alphanumerics is refused before anything
      is written. */
  lemma DisplayInvalidTagNameExample(h: Host)
    ensures Render(Node(Tag("\U{3042}", map[], [])), h) ==
      Err(InvalidTagName("\U{3042}"))
  {
    assert "\U{3042}"[0] == '\U{3042}';
    assert !IsAsciiAlphanumeric('\U{3042}');
  }

  /** An attribute name holding a space is refused. */
  lemma DisplayInvalidAttributeNameExample(h: Host)
    requires ValidHost(h)
    ensures Render(Node(Tag("a", map[" " := Null], [])), h) == Err(InvalidAttributeName(" "))
  {
    IterateSingleton(h, " ", Null);
    assert [(" ", Null)][..0] == [];
    assert " "[0] == ' ';
    assert IsValidTagName("a") by {
      assert "a"[0] == 'a';
    }
  }

  /** A string attribute value goes through the unquoted-attribute escaping,
      which turns `=` into a character reference. */
  lemma DisplayEscapedAttributeValueExample(h: Host)
    requires ValidHost(h)
    requires h.escapeUnquoted("=") == "&#x3D;"
    ensures Render(Node(Tag("a", map["b" := Str("=")], [])), h) == Ok("<a b=\"&#x3D;\"></a>")
  {
    EscapedAttributes(h);
    assert IsValidTagName("a") by {
      assert "a"[0] == 'a';
    }
    assert "b" in map["b" := Str("=")];
    assert "<" + "a" + " b=\"&#x3D;\"" + ">" + "" + "</" + "a" + ">" == "<a b=\"&#x3D;\"></a>";
  }

  /** The attributes of the escaping example. */
  lemma EscapedAttributes(h: Host)
    requires ValidHost(h)
    requires h.escapeUnquoted("=") == "&#x3D;"
    ensures AttributesText(h.iterate(map["b" := Str("=")]), h) == Ok(" b=\"&#x3D;\"")
  {
    IterateSingleton(h, "b", Str("="));
    assert IsValidAttributeName("b") by {
      assert "b"[0] == 'b';
    }
    AttributesTextOne("b", Str("="), h);
    assert " " + "b" + "=\"" + "&#x3D;" + "\"" == " b=\"&#x3D;\"";
  }

  /** Booleans and null are written as the words JSON uses for them. */
  lemma ValueTextExample(h: Host)
    ensures ValueText(Null, h) == "null"
    ensures ValueText(Bool(true), h) == "true"
    ensures ValueText(Bool(false), h) == "false"
  {
  }

  /** The name checks only look for bad characters: an empty tag name is
      decoded and written, and an attribute name may be empty or hold a
      control character. */
  lemma NameEdgeCases(h: Host)
    ensures Decode(JArr([JStr("")])) == Ok(Node(Tag("", map[], [])))
    ensures Render(Node(Tag("", map[], [])), h) == Ok("<></>")
    ensures IsValidAttributeName("") && IsValidAttributeName("\U{0007}")
  {
    assert "<" + "" + "" + ">" + "" + "</" + "" + ">" == "<></>";
    assert !IsForbiddenInAttributeName('\U{0007}');
  }

  /** A one-item list as JSON. */
  function ListJson(): Json {
    JArr([JStr("ul"), JArr([JStr("li"), JObj(map["style" := JStr("color:red")]), JStr("First Item")])])
  }

  /** The one-item list read from JSON is the `ul` tag around the styled item;
      its first item is an element, so it is a child and `ul` has no
      attributes. */
  lemma DecodeListExample()
    ensures Decode(ListJson()) == Ok(Node(Tag("ul", map[], [StyledItem()])))
  {
    WireFormOfStyledItem();
    var items := ListJson().items;
    assert DecodeAttributes(items[1]).None?;
    assert DecodeAttributesOrElement(items[1]) == Ok(Elem(StyledItem()));
    assert items[2..] == [];
    DecodeTagOk(items, Elem(StyledItem()), []);
    assert [StyledItem()] + [] == [StyledItem()];
  }

  /** The text of a tag, regrouped as its start tag, its content and its end
      tag. */
  lemma TagText(name: string, attrs: string, inner: string)
    ensures "<" + name + attrs + ">" + inner + "</" + name + ">"
      == ("<" + name + attrs + ">") + inner + ("</" + name + ">")
  {
  }

  /** The decoded list written as HTML, with the escaping of the `:` in the
      attribute value that the unquoted-attribute encoder performs. */
  lemma RenderListExample(h: Host)
    requires ValidHost(h)
    requires h.escapeUnquoted("color:red") == "color&#x3A;red"
    ensures Render(Node(Tag("ul", map[], [StyledItem()])), h) ==
      Ok("<ul>" + "<li style=\"color&#x3A;red\">First Item</li>" + "</ul>")
  {
    RenderStyledItem(h);
    RenderAllOne(StyledItem(), h);
    assert IsValidTagName("ul") by {
      assert "ul"[0] == 'u' && "ul"[1] == 'l';
    }
    TagText("ul", "", "<li style=\"color&#x3A;red\">First Item</li>");
    assert "<" + "ul" + "" + ">" == "<ul>";
    assert "</" + "ul" + ">" == "</ul>";
  }

  /** The styled item written as HTML. */
  lemma RenderStyledItem(h: Host)
    requires ValidHost(h)
    requires h.escapeUnquoted("color:red") == "color&#x3A;red"
    ensures Render(StyledItem(), h) == Ok("<li style=\"color&#x3A;red\">First Item</li>")
  {
    StyledItemAttributes(h);
    assert IsValidTagName("li") by {
      assert "li"[0] == 'l' && "li"[1] == 'i';
    }
    RenderAllOne(Text("First Item"), h);
    assert "style" in StyledItem().tag.attributes;
    TagText("li", " style=\"color&#x3A;red\"", "First Item");
    StyledItemText();
  }

  /** The pieces of the styled item put together. */
  lemma StyledItemText()
    ensures ("<" + "li" + " style=\"color&#x3A;red\"" + ">") + "First Item" + ("</" + "li" + ">")
      == "<li style=\"color&#x3A;red\">First Item</li>"
  {
    StyledItemStartTag();
    assert "</" + "li" + ">" == "</li>";
    assert "<li style=\"color&#x3A;red\">" + "First Item" + "</li>" == "<li style=\"color&#x3A;red\">First Item</li>";
  }

  /** The start tag of the styled item. */
  lemma StyledItemStartTag()
    ensures "<" + "li" + " style=\"color&#x3A;red\"" + ">" == "<li style=\"color&#x3A;red\">"
  {
  }

  /** The styled item's one attribute. */
  lemma StyledItemAttributes(h: Host)
    requires ValidHost(h)
    requires h.escapeUnquoted("color:red") == "color&#x3A;red"
    ensures AttributesText(h.iterate(map["style" := Str("color:red")]), h) == Ok(" style=\"color&#x3A;red\"")
  {
    IterateSingleton(h, "style", Str("color:red"));
    StyleIsValidAttributeName();
    AttributesTextOne("style", Str("color:red"), h);
    StyleText();
  }

  /** The pieces of the styled item's attribute put together. */
  lemma StyleText()
    ensures " " + "style" + "=\"" + "color&#x3A;red" + "\"" == " style=\"color&#x3A;red\""
  {
  }

  /** `style` passes the attribute-name check. */
  lemma StyleIsValidAttributeName()
    ensures IsValidAttributeName("style")
  {
    assert "style"[0] == 's' && "style"[1] == 't' && "style"[2] == 'y' && "style"[3] == 'l' && "style"[4] == 'e';
  }
}
