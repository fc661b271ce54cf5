# jsonml in Dafny

A model of the core of the Rust crate `jsonml`. The crate converts between
JsonML, the array-based JSON encoding of markup described at jsonml.org, and a
markup tree. It also renders that tree as HTML text.

- **Markup tree** (`markup.dfy`). An `Element` is either text or a `Tag`. A tag
  has a name, an attribute map and an ordered list of children. An
  `AttributeValue` is a string, a 32-bit float, a boolean or null.
- **Wire form** (`json.dfy`). JSON values as defined by RFC 8259, held as a tree:
  strings, numbers, booleans, null, arrays and objects. An object is a map from
  its keys to its values.
- **Encoder** (`encoder.dfy`, `Serialize for Element`). Text becomes a string. A
  tag becomes an array: its name, then its attributes object only when the map
  is non-empty, then each child.
- **Decoder** (`decoder.dfy`, `Deserialize for Element` and its visitor). A
  string becomes text. An array becomes a tag: the first item must be a string
  name. The item after the name is tried first as an attributes object and
  then as an element, which becomes the first child. Every later item is a
  child.
- **Round trip** (`roundtrip.dfy`). Decoding an encoding gives the element
  back. Encoding a decoding gives the JSON back, except for an empty `{}`
  attributes object, which is never written.
- **HTML renderer** (`html.dfy`, `Display for Element` and
  `Display for AttributeValue`). A tag name must consist of ASCII alphanumerics.
  An attribute name must not contain space, `"`, `'`, `>`, `/`, `=` or a Unicode
  noncharacter; these are the exclusions of section 13.1.2.3 of the WHATWG HTML
  Living Standard, as the crate applies them. Output is
  `<name key="value"...>children</name>`. Text is written as it is.
- **Tree rewrites** (`treemaps.dfy`). The deprecated `map_bottom_up` and
  `map_top_down`.
- **Examples** (`examples.dfy`). The crate's unit tests and the two
  jsonml.org documents of its integration tests, as lemmas.

The renderer depends on three things outside the crate. They are parameters
of type `Html.Host`:

- the order in which a `HashMap` yields its entries (`iterate`);
- the decimal text of an `f32` (`numberText`);
- `html_escape::encode_unquoted_attribute` (`escapeUnquoted`).

`Html.ValidHost` requires only that iteration lists every entry exactly once.
Whatever that order, a renderable element is written as the HTML of an
`Html.Layout`: its text and tags, and at each tag the ` key="value"` piece of
every entry of its map, joined in iteration order. So two orders change only
where a tag's pieces stand among themselves (`Html.RenderIgnoresOrder`).
The renderer's failure to format, which panics in `to_string`, is modelled as
an `Err` that names the offending tag or attribute name.

The imperative parts of the source are methods with loops. They are proved
equal to the functions that specify them: `Encoder.Serialize`,
`Decoder.Deserialize`, `Decoder.VisitSeq` and `Html.Display`.

## Model

| member | source | states |
|---|---|---|
| TreeMaps.MapBottomUp | src/lib.rs:31-48 | text is returned unchanged |
| TreeMaps.MapBottomUpAll | src/lib.rs:41-44 | each child is mapped bottom-up, in order, and the list keeps its length |
| TreeMaps.MapBottomUpIdentity | src/lib.rs:31-48 | mapping bottom-up with the identity function returns the input tree |
| TreeMaps.MapBottomUpIgnoresText | src/lib.rs:31-48 | the function is never applied to text: two functions that agree on tags give the same tree |
| TreeMaps.MapTopDown | src/lib.rs:50-68 | the result has the kind, name and attributes of `f(e)` and as many children; text from `f` is returned as is |
| TreeMaps.MapTopDownAll | src/lib.rs:61-64 | the mapped children list has the length of the input list |
| TreeMaps.MapTopDownAllPointwise | src/lib.rs:61-64 | the children map exactly when each child maps, and each result is that child's own top-down mapping |
| TreeMaps.MapTopDownFuelMonotone | src/lib.rs:50-68 | the depth bound decides only whether the rewrite finishes, not the tree it gives |
| TreeMaps.MapTopDownAllFuelMonotone | src/lib.rs:61-64 | the same for a list of children |
| TreeMaps.MapTopDownIdentity | src/lib.rs:50-68 | mapping top-down with the identity function returns the input tree once the bound exceeds its height |
| TreeMaps.MapTopDownAllIdentity | src/lib.rs:61-64 | the same for a list of children |
| Encoder.EncodeValue | src/lib.rs:403-412 | an attribute value is written as a JSON scalar |
| Encoder.EncodeAttributes | src/lib.rs:99-101 | the attributes object has exactly the map's keys, each with a scalar value |
| Encoder.Encode | src/lib.rs:85-112 | an element is written as a string or as an array whose first item is a string, never as an object |
| Encoder.EncodeTag | src/lib.rs:96-107 | a tag's array holds the name, then the object only when attributes exist, then the encoded children; its length follows from that |
| Encoder.EncodeAll | src/lib.rs:102-106 | each child is encoded in order |
| Encoder.Serialize | src/lib.rs:85-112 | the serialiser's loop produces exactly `Encode(e)` |
| Encoder.LengthHintAsWritten | src/lib.rs:96-97 | the announced length counts one item per attribute; it is right when there are no attributes |
| Encoder.LengthHintOvercounts | src/lib.rs:96-97 | with two attributes the announced length is 3 while 2 items are written |
| Encoder.LengthHint | src/lib.rs:96-97 | the corrected length equals the number of items written; it is 1 plus the child count exactly when there are no attributes |
| Decoder.DecodeValue | src/lib.rs:403-412 | a JSON value is an attribute value exactly when it is a scalar |
| Decoder.DecodeAttributes | src/lib.rs:141 | a JSON value is an attribute map exactly when it is an object of scalars; keys are kept and each value is decoded |
| Decoder.AttributesOrElement | src/lib.rs:138-143 | the item after the name is read as one of two variants, an attribute map or an element |
| Decoder.DecodeAttributesOrElement | src/lib.rs:138-150 | the attributes shape wins whenever it applies; the element shape is used only otherwise; when neither applies, no variant matched |
| Decoder.Decode | src/lib.rs:123-128 | a string is text; a value that is neither string nor array is of the wrong type; a decoded tag's name is the array's first item |
| Decoder.DecodeTag | src/lib.rs:130-162 | a decoded tag's name is the first item of the array |
| Decoder.DecodeElements | src/lib.rs:151-153 | a decoded children list has one element per item |
| Decoder.DecodeElementsPointwise | src/lib.rs:151-153 | the children decode exactly when every item does; each child is its item's decoding; a failure carries the first failing item's error |
| Decoder.DecodeElementsStopsAtFailure | src/lib.rs:151-153 | once an item fails, later items are not looked at |
| Decoder.Deserialize | src/lib.rs:326-333 | dispatching on the JSON value gives exactly `Decode(j)` |
| Decoder.VisitSeq | src/lib.rs:130-162 | the visitor's loop over the array gives exactly `DecodeTag(items)` |
| Decoder.DecodeNameRules | src/lib.rs:134-161 | an empty array is missing its name; a non-string first item is of the wrong type; a lone name is a tag with no attributes and no children |
| Decoder.DecodePriority | src/lib.rs:145-153 | after the name, an attributes object becomes the attributes; another element becomes the first child with empty attributes; anything else fails the whole array |
| RoundTrip.DecodeEncodeValue | src/lib.rs:403-412 | an attribute value read back from its JSON is the same value |
| RoundTrip.DecodeEncodeAttributes | src/lib.rs:138-147 | an attribute map read back from its object is the same map |
| RoundTrip.DecodeEncode | src/lib.rs:85-162 | decoding the encoding of any element gives that element |
| RoundTrip.DecodeEncodeAll | src/lib.rs:151-153 | decoding an encoded children list gives that list |
| RoundTrip.EncodeDecodeValue | src/lib.rs:403-412 | a JSON scalar decoded and re-encoded is the same scalar |
| RoundTrip.EncodeDecodeAttributes | src/lib.rs:138-147 | an object of scalars decoded and re-encoded is the same object |
| RoundTrip.EncodeDecode | src/lib.rs:85-162 | JSON that decodes, and has no empty `{}` after a name, re-encodes to itself |
| RoundTrip.EncodeDecodeAll | src/lib.rs:151-153 | the same for a list of children |
| Html.IsValidTagName | src/lib.rs:190-194 | a valid tag name holds only ASCII characters |
| Html.TagNameRuleIsStricter | src/lib.rs:190-245 | every valid tag name also passes the attribute-name check; `data-x` passes that check but is no valid tag name |
| Html.IsNoncharacter | src/lib.rs:210-244 | no character below U+FDD0 is a noncharacter |
| Html.IsValidAttributeName | src/lib.rs:203-245 | a valid attribute name holds no space, `=` or `"`, the characters that delimit ` key="value"` |
| Html.NoncharacterList | src/lib.rs:210-244 | the arithmetic noncharacter test picks out exactly U+FDD0 to U+FDEF and the 34 listed plane ends |
| Html.ValueText | src/lib.rs:415-424 | null is written `null`; a boolean is written `true` exactly when it is true and `false` exactly when it is false; a string goes through the unquoted-attribute escaper and a number through the decimal writer |
| Html.AttributeTextParts | src/lib.rs:248 | one attribute is a space, the name, `="`, the value's text and a closing `"`; a valid name ends at the first `=`, so it can be read back |
| Html.AttributesText | src/lib.rs:196-251 | a failure names an attribute of the list whose name is invalid |
| Html.Render | src/lib.rs:179-264 | a failure names an invalid tag name or an invalid attribute name |
| Html.RenderAll | src/lib.rs:253-257 | a failure among the children names an invalid tag or attribute name |
| Html.Display | src/lib.rs:179-264 | the renderer's loops produce exactly `Render(e, h)` |
| Html.AttributesTextStopsAtFailure | src/lib.rs:200-250 | the first invalid attribute name ends the rendering; later entries are not looked at |
| Html.RenderAllStopsAtFailure | src/lib.rs:253-257 | the first child that fails ends the rendering of the children |
| Html.AttributesTextOkIff | src/lib.rs:200-250 | the attributes render exactly when every attribute name is valid |
| Html.RenderOkIff | src/lib.rs:179-264 | an element renders exactly when every tag name and every attribute name in it is valid, whatever the iteration order |
| Html.RenderAllOkIff | src/lib.rs:253-257 | a children list renders exactly when each child does |
| Html.EnumerationLength | src/lib.rs:200 | iterating a map yields as many entries as the map has keys |
| Html.EnumerationOfSmallMapIsUnique | src/lib.rs:200 | a map of at most one entry has only one possible iteration |
| Html.RenderIgnoresOrderOfSingleAttributes | src/lib.rs:179-264 | when no tag has two attributes, the HTML text does not depend on the map's iteration order |
| Html.RenderAllIgnoresOrderOfSingleAttributes | src/lib.rs:253-257 | the same for a children list |
| Html.AttributesTextCharacters | src/lib.rs:200-250 | the characters of the attributes text are the sum of the characters of each written attribute |
| Html.AttributesTextIsConcat | src/lib.rs:200-250 | with every name valid, the attributes text is the entries' ` key="value"` pieces joined in iteration order, each value beside its own key |
| Html.PiecesOfEnumeration | src/lib.rs:200 | the pieces of any iteration of a map are the map's own pieces, ` key="m[key]"` once per key, in some order |
| Html.AttributesTextPermutes | src/lib.rs:196-251 | two iterations of one map give texts that join two permutations of the same list of pieces |
| Html.RenderIsLayout | src/lib.rs:179-264 | a renderable element is written as the HTML of its layout: the element's text and tags, each tag with its own map's pieces in iteration order |
| Html.RenderAllIsLayout | src/lib.rs:253-257 | the same for a children list |
| Html.RenderIgnoresOrder | src/lib.rs:179-264 | two iteration orders give the same success or failure; on success both texts are the HTML of layouts of the same element, which differ only in the order of each tag's ` key="value"` pieces; the character multisets agree |
| Html.RenderAllIgnoresOrder | src/lib.rs:253-257 | the same for a children list |
| Examples.WireFormOfStyledItem | src/lib.rs:335-358 | the `li` tag with a style and a text child is the three-item array, and reads back as itself |
| Examples.WireFormOfBareTag | src/lib.rs:360-371 | a tag with only a name is the one-item array, and back |
| Examples.WireFormOfTagWithoutChildren | src/lib.rs:373-395 | a tag with attributes and no children is the two-item array, and back |
| Examples.WireFormOfText | src/lib.rs:397-401 | a string decodes to text |
| Examples.DecodeRejections | src/lib.rs:134-161 | the missing-name, wrong-type and no-variant-matched errors on small arrays |
| Examples.BulletListExample | tests/examples.rs:9-59 | the jsonml.org bulleted list decodes to the expected tree, with a `span` as a first child |
| Examples.ColorfulTableExample | tests/examples.rs:61-197 | the jsonml.org colorful table decodes to the expected tree |
| Examples.DisplayElementExample | src/lib.rs:266-287 | the `div` with an `id`, a text and a `span` renders as `<div id="aaa">bbb<span>ccc</span></div>` |
| Examples.DisplayInvalidTagNameExample | src/lib.rs:289-298 | a non-ASCII tag name is refused |
| Examples.DisplayInvalidAttributeNameExample | src/lib.rs:300-309 | an attribute named by a space is refused |
| Examples.DisplayEscapedAttributeValueExample | src/lib.rs:311-324 | an `=` in a value is written as `&#x3D;` |
| Examples.ValueTextExample | src/lib.rs:415-424 | null, true and false are written as `null`, `true` and `false` |
| Examples.NameEdgeCases | src/lib.rs:190-244 | an empty tag name is decoded and rendered as `<></>`; an empty attribute name and one holding a control character pass the check |
| Examples.DecodeListExample | src/lib.rs:130-162 | a `ul` array whose item after the name is the `li` array gets that item as its only child |
| Examples.RenderListExample | src/lib.rs:179-264 | the decoded list renders as `<ul><li style="color&#x3A;red">First Item</li></ul>` when the escaper turns `:` into `&#x3A;` |

## Findings

| source | as written | input that shows it | evidently intended | confidence | as-written member | corrected member |
|---|---|---|---|---|---|---|
| src/lib.rs:96-97 | the length given to `serialize_seq` is `1 + attributes.len() + element_list.len()` | a tag with two attributes and no children: the hint is 3, but 2 items are written | `1 + (0 or 1 for the attributes object) + element_list.len()` | high; not executed | Encoder.LengthHintAsWritten, Encoder.LengthHintOvercounts | Encoder.LengthHint |

`serde_json` ignores the hint, so JSON output is unaffected. A format that
writes the announced length first would produce a wrong length prefix.
`Encoder.Serialize` computes the corrected hint and proves it equals the
number of items it writes.

## Left out

- The serde machinery is not modelled: tokens, `SeqAccess`, the `expecting` message and error texts. The decoder works on a JSON value tree.
- Parsing JSON text is not modelled. This covers malformed text, duplicate object keys and how numbers are read into `f32`. An object is a map, and a number is an opaque 32-bit pattern (`Markup.Float32`).
- RoundTrip.DecodeEncode: holds on JSON values. `serde_json` writes a NaN or infinite `f32` as `null`, so through JSON text such a number comes back as `Null`; that step is not modelled.
- Decoder.Decode: every serde type mismatch is the single error `InvalidType`. The untagged enum's failure is `NoVariantMatched`, and an empty array is `MissingName`.
- The order in which a `HashMap` yields its entries is a parameter (`Host.iterate`), because it is not determined by the source.
- Html.Render: `Host.iterate` orders a map by its contents alone, so two equal attribute maps in one tree are written in the same order. In Rust each `HashMap` has its own `RandomState` (src/lib.rs:75), so two equal maps may iterate differently. Html.RenderIgnoresOrder covers any order for a given map, but not a different order for each of two equal maps in one element.
- The decimal text of an `f32` is a parameter (`Host.numberText`), because it is defined by Rust's standard library.
- `html_escape::encode_unquoted_attribute` is a parameter (`Host.escapeUnquoted`), because it lives in another crate. That escaper also escapes `:` and other non-alphanumeric characters. So the `ul`/`li` example renders `style="color&#x3A;red"` and not `style="color:red"`. The model follows the code here.
- Html.Render: the source panics inside `to_string` when a name is invalid; the model returns an `Err` naming the invalid name instead.
- Html.RenderOkIff: the crate's checks are followed as written. An empty tag name passes. An attribute name may be empty or contain control characters. Section 13.1.2.3 of the WHATWG HTML Living Standard rejects both.
- TreeMaps.MapTopDown: the Rust function may never return, because `f` can keep growing the tree. The model takes a depth bound (`fuel`) and gives `None` when it runs out.
- `FromStr for Element`, `Default for Element` and the crate-level documentation are trivial and not modelled.
