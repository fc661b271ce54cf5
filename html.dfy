/**
 * `Display for Element` and `Display for AttributeValue`: an element is
 * written as HTML. Text is written as it is; a tag is written as
 * `<name key="value"...>children</name>` once its name and every attribute
 * name pass the lexical rules of the WHATWG HTML Living Standard
 * (section 13.1.2 for tag names, section 13.1.2.3 for attribute names).
 */
module Html {
  import opened Results
  import opened Markup

  /** An ASCII digit, upper-case letter or lower-case letter. */
  predicate IsAsciiAlphanumeric(c: char) {
    '0' <= c <= '9' || 'A' <= c <= 'Z' || 'a' <= c <= 'z'
  }

  /** A tag name is made of ASCII alphanumerics only (the empty name passes);
      such a name is plain ASCII. */
  predicate IsValidTagName(name: string)
    ensures IsValidTagName(name) ==> forall i | 0 <= i < |name| :: name[i] as int < 0x80
  {
    forall i | 0 <= i < |name| :: IsAsciiAlphanumeric(name[i])
  }

  /** The tag-name rule is the stricter one: a valid tag name would also pass
      as an attribute name, while the converse fails (`data-x` is a valid
      attribute name and no valid tag name). */
  lemma TagNameRuleIsStricter()
    ensures forall name :: IsValidTagName(name) ==> IsValidAttributeName(name)
    ensures IsValidAttributeName("data-x") && !IsValidTagName("data-x")
  {
    assert "data-x"[4] == '-';
  }

  /** The Unicode noncharacters: U+FDD0 to U+FDEF, and the last two code
      points of each of the seventeen planes (U+nFFFE and U+nFFFF). */
  predicate IsNoncharacter(c: char)
    ensures IsNoncharacter(c) ==> c as int >= 0xFDD0
  {
    (0xFDD0 <= c as int <= 0xFDEF) || c as int % 0x10000 == 0xFFFE || c as int % 0x10000 == 0xFFFF
  }

  /** The noncharacters outside U+FDD0 to U+FDEF, listed one by one. */
  const PlaneEndNoncharacters: set<char> := {
      '\U{FFFE}', '\U{FFFF}', '\U{1FFFE}', '\U{1FFFF}', '\U{2FFFE}', '\U{2FFFF}',
      '\U{3FFFE}', '\U{3FFFF}', '\U{4FFFE}', '\U{4FFFF}', '\U{5FFFE}', '\U{5FFFF}',
      '\U{6FFFE}', '\U{6FFFF}', '\U{7FFFE}', '\U{7FFFF}', '\U{8FFFE}', '\U{8FFFF}',
      '\U{9FFFE}', '\U{9FFFF}', '\U{AFFFE}', '\U{AFFFF}', '\U{BFFFE}', '\U{BFFFF}',
      '\U{CFFFE}', '\U{CFFFF}', '\U{DFFFE}', '\U{DFFFF}', '\U{EFFFE}', '\U{EFFFF}',
      '\U{FFFFE}', '\U{FFFFF}', '\U{10FFFE}', '\U{10FFFF}'
  }

  /** The arithmetic definition of a noncharacter picks out exactly the
      range U+FDD0 to U+FDEF and the listed plane ends. */
  lemma NoncharacterList(c: char)
    ensures IsNoncharacter(c) <==> (0xFDD0 <= c as int <= 0xFDEF) || c in PlaneEndNoncharacters
  {
    var n := c as int;
    var plane := n / 0x10000;
    assert 0 <= plane <= 0x10;
    assert n == plane * 0x10000 + n % 0x10000;
  }

  /** The characters an attribute name may not hold: space, `"`, `'`, `>`,
      `/`, `=` and the noncharacters. */
  predicate IsForbiddenInAttributeName(c: char) {
    c == ' ' || c == '"' || c == '\'' || c == '>' || c == '/' || c == '=' || IsNoncharacter(c)
  }

  /** An attribute name holds no forbidden character (the empty name passes);
      in particular none of the space, `=` and `"` that delimit ` key="value"`. */
  predicate IsValidAttributeName(key: string)
    ensures IsValidAttributeName(key) ==> ' ' !in key && '=' !in key && '"' !in key
  {
    forall i | 0 <= i < |key| :: !IsForbiddenInAttributeName(key[i])
  }

  /** What the renderer takes from outside this model: the order in which the
      hash map hands out its entries, the decimal text of an `f32`, and the
      escaping of `html_escape::encode_unquoted_attribute`. */
  datatype Host = Host(
    iterate: Attributes -> seq<(string, AttributeValue)>,
    numberText: Float32 -> string,
    escapeUnquoted: string -> string)

  /** `entries` lists every entry of `m` exactly once, in some order. */
  ghost predicate Enumerates(entries: seq<(string, AttributeValue)>, m: Attributes) {
    && (forall i | 0 <= i < |entries| :: entries[i].0 in m && m[entries[i].0] == entries[i].1)
    && (forall k | k in m :: exists i | 0 <= i < |entries| :: entries[i].0 == k)
    && (forall i, j | 0 <= i < j < |entries| :: entries[i].0 != entries[j].0)
  }

  /** A host whose iteration visits every entry of a map exactly once. */
  ghost predicate ValidHost(h: Host) {
    forall m: Attributes :: Enumerates(h.iterate(m), m)
  }

  /** Why an element cannot be written as HTML; the offending name is kept. */
  datatype RenderError = InvalidTagName(name: string) | InvalidAttributeName(key: string)

  /** `Display for AttributeValue`: a string is escaped for an attribute
      value, a number is written in decimal, a boolean as `true` or `false`,
      and null as `null`. */
  function ValueText(v: AttributeValue, h: Host): (r: string)
    ensures v.Null? ==> r == "null"
    ensures v.Bool? ==> (r == "true" <==> v.b) && (r == "false" <==> !v.b)
    ensures v.Str? ==> r == h.escapeUnquoted(v.s)
    ensures v.Number? ==> r == h.numberText(v.n)
  {
    match v
    case Str(s) => h.escapeUnquoted(s)
    case Number(n) => h.numberText(n)
    case Bool(b) => if b then "true" else "false"
    case Null => "null"
  }

  /** One attribute as written inside a start tag: ` key="value"`. */
  function AttributeText(key: string, value: AttributeValue, h: Host): (r: string)
  {
    " " + key + "=\"" + ValueText(value, h) + "\""
  }

  /** The parts of one written attribute: a space, the name, `="`, the value
      and a closing `"`. When the name is valid it is what stands between the
      leading space and the first `=`, so it can be read back. */
  lemma AttributeTextParts(key: string, value: AttributeValue, h: Host)
    ensures var r := AttributeText(key, value, h);
      && |r| == |key| + |ValueText(value, h)| + 4
      && r[0] == ' ' && r[1..|key| + 1] == key && r[|key| + 1..|key| + 3] == "=\""
      && r[|key| + 3..|r| - 1] == ValueText(value, h) && r[|r| - 1] == '"'
    ensures IsValidAttributeName(key) ==>
      && (forall i | 1 <= i <= |key| :: AttributeText(key, value, h)[i] != '=')
      && AttributeText(key, value, h)[|key| + 1] == '='
  {
    var r := AttributeText(key, value, h);
    assert r == " " + key + "=\"" + ValueText(value, h) + "\"";
    forall i | 1 <= i <= |key|
      ensures IsValidAttributeName(key) ==> r[i] != '='
    {
      assert r[i] == key[i - 1];
    }
  }

  /** The attributes, in the order the entries come, each checked and written;
      the first entry whose name is invalid stops the rendering. */
  function AttributesText(entries: seq<(string, AttributeValue)>, h: Host): (r: Result<string, RenderError>)
    ensures r.Err? ==> r.error.InvalidAttributeName? && !IsValidAttributeName(r.error.key)
    ensures r.Err? ==> exists i | 0 <= i < |entries| :: entries[i].0 == r.error.key
  {
    if entries == [] then Ok("")
    else
      var init := entries[..|entries| - 1];
      var text :- AttributesText(init, h);
      var (key, value) := entries[|entries| - 1];
      if !IsValidAttributeName(key) then Err(InvalidAttributeName(key))
      else Ok(text + AttributeText(key, value, h))
  }

  /** An element written as HTML. Text is written verbatim, without escaping;
      a tag is checked (its name, then its attributes in iteration order, then
      its children from first to last) and written with an explicit end tag. */
  function Render(e: Element, h: Host): (r: Result<string, RenderError>)
    ensures r.Err? && r.error.InvalidTagName? ==> !IsValidTagName(r.error.name)
    ensures r.Err? && r.error.InvalidAttributeName? ==> !IsValidAttributeName(r.error.key)
    decreases e, 1
  {
    match e
    case Text(s) => Ok(s)
    case Node(Tag(name, attributes, elementList)) =>
      if !IsValidTagName(name) then Err(InvalidTagName(name))
      else
        var attrs :- if attributes == map[] then Ok("") else AttributesText(h.iterate(attributes), h);
        var elms :- RenderAll(elementList, h);
        Ok("<" + name + attrs + ">" + elms + "</" + name + ">")
  }

  /** The children written one after the other; the first child that cannot
      be written stops the rendering. */
  function RenderAll(es: seq<Element>, h: Host): (r: Result<string, RenderError>)
    ensures r.Err? && r.error.InvalidTagName? ==> !IsValidTagName(r.error.name)
    ensures r.Err? && r.error.InvalidAttributeName? ==> !IsValidAttributeName(r.error.key)
    decreases es, 0
  {
    if es == [] then Ok("")
    else
      var init :- RenderAll(es[..|es| - 1], h);
      var last :- Render(es[|es| - 1], h);
      Ok(init + last)
  }

  /** The renderer as the source runs it: the tag name is checked, the
      attribute string is built entry by entry in the map's iteration order,
      and the children are rendered one by one and joined. */
  method Display(e: Element, h: Host) returns (r: Result<string, RenderError>)
    ensures r == Render(e, h)
    decreases e, 1
  {
    match e
    case Text(s) =>
      return Ok(s);
    case Node(Tag(name, attributes, elementList)) =>
      if !IsValidTagName(name) {
        return Err(InvalidTagName(name));
      }
      var attrs := "";
      if attributes != map[] {
        var entries := h.iterate(attributes);
        for i := 0 to |entries|
          invariant AttributesText(entries[..i], h) == Ok(attrs)
        {
          var (key, value) := entries[i];
          assert entries[..i + 1][..i] == entries[..i];
          if !IsValidAttributeName(key) {
            AttributesTextStopsAtFailure(entries, i + 1, h);
            return Err(InvalidAttributeName(key));
          }
          attrs := attrs + AttributeText(key, value, h);
        }
        assert entries[..|entries|] == entries;
      }
      var elms := "";
      for i := 0 to |elementList|
        invariant RenderAll(elementList[..i], h) == Ok(elms)
      {
        var elm := Display(elementList[i], h);
        assert elementList[..i + 1][..i] == elementList[..i];
        if elm.Err? {
          RenderAllStopsAtFailure(elementList, i + 1, h);
          return Err(elm.error);
        }
        elms := elms + elm.value;
      }
      assert elementList[..|elementList|] == elementList;
      return Ok("<" + name + attrs + ">" + elms + "</" + name + ">");
  }

  /** Once a prefix of the entries fails, all of them fail with the same error. */
  lemma {:induction false} AttributesTextStopsAtFailure(entries: seq<(string, AttributeValue)>, n: nat, h: Host)
    requires n <= |entries|
    requires AttributesText(entries[..n], h).Err?
    ensures AttributesText(entries, h) == AttributesText(entries[..n], h)
    decreases |entries| - n
  {
    if n < |entries| {
      assert entries[..n + 1][..n] == entries[..n];
      AttributesTextStopsAtFailure(entries, n + 1, h);
    } else {
      assert entries[..n] == entries;
    }
  }

  /** Once a prefix of the children fails, all of them fail with the same error. */
  lemma {:induction false} RenderAllStopsAtFailure(es: seq<Element>, n: nat, h: Host)
    requires n <= |es|
    requires RenderAll(es[..n], h).Err?
    ensures RenderAll(es, h) == RenderAll(es[..n], h)
    decreases |es| - n
  {
    if n < |es| {
      assert es[..n + 1][..n] == es[..n];
      RenderAllStopsAtFailure(es, n + 1, h);
    } else {
      assert es[..n] == es;
    }
  }

  /** An element every tag of which has a valid name and valid attribute
      names: the elements that can be written as HTML. */
  predicate IsRenderable(e: Element) {
    match e
    case Text(_) => true
    case Node(Tag(name, attributes, elementList)) =>
      && IsValidTagName(name)
      && (forall k | k in attributes :: IsValidAttributeName(k))
      && (forall i | 0 <= i < |elementList| :: IsRenderable(elementList[i]))
  }

  /** The attributes are written exactly when every entry's name is valid. */
  lemma {:induction false} AttributesTextOkIff(entries: seq<(string, AttributeValue)>, h: Host)
    ensures AttributesText(entries, h).Ok? <==> forall i | 0 <= i < |entries| :: IsValidAttributeName(entries[i].0)
  {
    if entries != [] {
      var init := entries[..|entries| - 1];
      assert forall i | 0 <= i < |init| :: init[i] == entries[i];
      AttributesTextOkIff(init, h);
    }
  }

  /** Rendering succeeds exactly on the renderable elements, whatever order the
      host's hash map iterates in: a tag fails when its name, one of its
      attribute names, or anything below it is invalid. */
  lemma {:induction false} RenderOkIff(e: Element, h: Host)
    requires ValidHost(h)
    ensures Render(e, h).Ok? <==> IsRenderable(e)
    decreases e, 1
  {
    match e
    case Text(_) =>
    case Node(Tag(name, attributes, elementList)) =>
      if attributes != map[] {
        var entries := h.iterate(attributes);
        assert Enumerates(entries, attributes);
        AttributesTextOkIff(entries, h);
        if forall i | 0 <= i < |entries| :: IsValidAttributeName(entries[i].0) {
          forall k | k in attributes
            ensures IsValidAttributeName(k)
          {
            var i :| 0 <= i < |entries| && entries[i].0 == k;
          }
        }
      }
      RenderAllOkIff(elementList, h);
  }

  /** The children are written exactly when every child can be. */
  lemma {:induction false} RenderAllOkIff(es: seq<Element>, h: Host)
    requires ValidHost(h)
    ensures RenderAll(es, h).Ok? <==> forall i | 0 <= i < |es| :: IsRenderable(es[i])
    decreases es, 0
  {
    if es != [] {
      var init := es[..|es| - 1];
      assert forall i | 0 <= i < |init| :: init[i] == es[i];
      RenderAllOkIff(init, h);
      RenderOkIff(es[|es| - 1], h);
    }
    forall i | 0 <= i < |es|
      ensures Render(es[i], h).Ok? <==> IsRenderable(es[i])
    {
      RenderOkIff(es[i], h);
    }
  }

  /** An element no tag of which has more than one attribute. */
  predicate HasAtMostOneAttributePerTag(e: Element) {
    match e
    case Text(_) => true
    case Node(Tag(_, attributes, elementList)) =>
      && |attributes| <= 1
      && (forall i | 0 <= i < |elementList| :: HasAtMostOneAttributePerTag(elementList[i]))
  }

  /** The names of the entries, as a set. */
  function EntryNames(entries: seq<(string, AttributeValue)>): set<string> {
    set i | 0 <= i < |entries| :: entries[i].0
  }

  /** Entries with pairwise distinct names have as many names as entries. */
  lemma {:induction false} DistinctEntryNamesCount(entries: seq<(string, AttributeValue)>)
    requires forall i, j | 0 <= i < j < |entries| :: entries[i].0 != entries[j].0
    ensures |EntryNames(entries)| == |entries|
  {
    if entries != [] {
      var init := entries[..|entries| - 1];
      var last := entries[|entries| - 1];
      DistinctEntryNamesCount(init);
      assert EntryNames(entries) == EntryNames(init) + {last.0};
      assert last.0 !in EntryNames(init);
    }
  }

  /** An enumeration of a map has one entry per key. */
  lemma EnumerationLength(entries: seq<(string, AttributeValue)>, m: Attributes)
    requires Enumerates(entries, m)
    ensures |entries| == |m|
  {
    DistinctEntryNamesCount(entries);
    assert EntryNames(entries) == m.Keys;
  }

  /** A map with at most one entry has a single enumeration. */
  lemma EnumerationOfSmallMapIsUnique(a: seq<(string, AttributeValue)>, b: seq<(string, AttributeValue)>, m: Attributes)
    requires |m| <= 1
    requires Enumerates(a, m) && Enumerates(b, m)
    ensures a == b
  {
    EnumerationLength(a, m);
    EnumerationLength(b, m);
    if |m| == 1 {
      var k :| k in m;
      assert |m.Keys - {k}| == 0;
      assert m.Keys == {k};
      assert a[0].0 in m && b[0].0 in m;
    }
  }

  /** Two hosts that write values alike but may iterate maps in different
      orders render every element with at most one attribute per tag alike. */
  lemma {:induction false} RenderIgnoresOrderOfSingleAttributes(e: Element, h1: Host, h2: Host)
    requires ValidHost(h1) && ValidHost(h2)
    requires h1.numberText == h2.numberText && h1.escapeUnquoted == h2.escapeUnquoted
    requires HasAtMostOneAttributePerTag(e)
    ensures Render(e, h1) == Render(e, h2)
    decreases e, 1
  {
    match e
    case Text(_) =>
    case Node(Tag(name, attributes, elementList)) =>
      var a, b := h1.iterate(attributes), h2.iterate(attributes);
      assert Enumerates(a, attributes) && Enumerates(b, attributes);
      EnumerationOfSmallMapIsUnique(a, b, attributes);
      AttributesTextSameValueText(a, h1, h2);
      RenderAllIgnoresOrderOfSingleAttributes(elementList, h1, h2);
  }

  /** The children of such an element, likewise. */
  lemma {:induction false} RenderAllIgnoresOrderOfSingleAttributes(es: seq<Element>, h1: Host, h2: Host)
    requires ValidHost(h1) && ValidHost(h2)
    requires h1.numberText == h2.numberText && h1.escapeUnquoted == h2.escapeUnquoted
    requires forall i | 0 <= i < |es| :: HasAtMostOneAttributePerTag(es[i])
    ensures RenderAll(es, h1) == RenderAll(es, h2)
    decreases es, 0
  {
    if es != [] {
      var init := es[..|es| - 1];
      assert forall i | 0 <= i < |init| :: init[i] == es[i];
      RenderAllIgnoresOrderOfSingleAttributes(init, h1, h2);
      RenderIgnoresOrderOfSingleAttributes(es[|es| - 1], h1, h2);
    }
  }

  /** Entries are written alike by hosts that write values alike. */
  lemma {:induction false} AttributesTextSameValueText(entries: seq<(string, AttributeValue)>, h1: Host, h2: Host)
    requires h1.numberText == h2.numberText && h1.escapeUnquoted == h2.escapeUnquoted
    ensures AttributesText(entries, h1) == AttributesText(entries, h2)
  {
    if entries != [] {
      AttributesTextSameValueText(entries[..|entries| - 1], h1, h2);
      var (key, value) := entries[|entries| - 1];
      assert ValueText(value, h1) == ValueText(value, h2);
    }
  }

  /** The union, over the entries of `m`, of what `piece` gives for each;
      no order of the entries is involved. */
  ghost function EntrySum<T>(m: Attributes, piece: (string, AttributeValue) -> multiset<T>): multiset<T>
    decreases |m|
  {
    if m == map[] then multiset{}
    else
      var k := SomeKey(m);
      assert (m - {k}).Keys == m.Keys - {k};
      piece(k, m[k]) + EntrySum(m - {k}, piece)
  }

  /** One key of a non-empty map, no matter which. */
  ghost function SomeKey(m: Attributes): (k: string)
    requires m != map[]
    ensures k in m
  {
    var k :| k in m; k
  }

  /** Any entry may be taken out of the sum first. */
  lemma {:induction false} EntrySumRemove<T>(m: Attributes, k: string, piece: (string, AttributeValue) -> multiset<T>)
    requires k in m
    ensures EntrySum(m, piece) == piece(k, m[k]) + EntrySum(m - {k}, piece)
    decreases |m|
  {
    var k' := SomeKey(m);
    if k' != k {
      assert (m - {k'}).Keys == m.Keys - {k'};
      assert (m - {k'})[k] == m[k];
      EntrySumRemove(m - {k'}, k, piece);
      assert (m - {k}).Keys == m.Keys - {k};
      assert (m - {k})[k'] == m[k'];
      EntrySumRemove(m - {k}, k', piece);
      assert m - {k'} - {k} == m - {k} - {k'};
    }
  }

  /** The characters of one written attribute, counted with multiplicity. */
  function AttributeCharacters(h: Host): (string, AttributeValue) -> multiset<char> {
    (key: string, value: AttributeValue) => multiset(AttributeText(key, value, h))
  }

  /** Whatever the order of the entries, the written attributes hold the same
      characters the same number of times. */
  lemma {:induction false} AttributesTextCharacters(entries: seq<(string, AttributeValue)>, m: Attributes, h: Host)
    requires Enumerates(entries, m)
    requires AttributesText(entries, h).Ok?
    ensures multiset(AttributesText(entries, h).value) == EntrySum(m, AttributeCharacters(h))
    decreases |entries|
  {
    if entries == [] {
      EnumerationLength(entries, m);
      assert m == map[];
    } else {
      var init := entries[..|entries| - 1];
      var (key, value) := entries[|entries| - 1];
      EnumeratesDropLast(entries, m);
      AttributesTextCharacters(init, m - {key}, h);
      EntrySumRemove(m, key, AttributeCharacters(h));
      AttributesTextLast(entries, h);
      var text := AttributesText(init, h).value;
      assert multiset(text + AttributeText(key, value, h)) == multiset(text) + multiset(AttributeText(key, value, h));
    }
  }

  /** Without its last entry, an enumeration enumerates the map without that key. */
  lemma EnumeratesDropLast(entries: seq<(string, AttributeValue)>, m: Attributes)
    requires Enumerates(entries, m) && entries != []
    ensures Enumerates(entries[..|entries| - 1], m - {entries[|entries| - 1].0})
  {
    var init := entries[..|entries| - 1];
    var key := entries[|entries| - 1].0;
    forall k | k in m - {key}
      ensures exists i | 0 <= i < |init| :: init[i].0 == k
    {
      var i :| 0 <= i < |entries| && entries[i].0 == k;
      assert init[i].0 == k;
    }
  }

  /** A successful rendering of entries ends with the last entry written. */
  lemma AttributesTextLast(entries: seq<(string, AttributeValue)>, h: Host)
    requires entries != [] && AttributesText(entries, h).Ok?
    ensures AttributesText(entries[..|entries| - 1], h).Ok?
    ensures AttributesText(entries, h).value ==
      AttributesText(entries[..|entries| - 1], h).value + AttributeText(entries[|entries| - 1].0, entries[|entries| - 1].1, h)
  {
  }

  /** Two enumerations of one map, written by hosts that write values alike,
      hold the same characters the same number of times. */
  lemma AttributesTextAgree(a: seq<(string, AttributeValue)>, b: seq<(string, AttributeValue)>, m: Attributes, h1: Host, h2: Host)
    requires Enumerates(a, m) && Enumerates(b, m)
    requires h1.numberText == h2.numberText && h1.escapeUnquoted == h2.escapeUnquoted
    requires AttributesText(a, h1).Ok? && AttributesText(b, h2).Ok?
    ensures multiset(AttributesText(a, h1).value) == multiset(AttributesText(b, h2).value)
  {
    AttributesTextSameValueText(b, h1, h2);
    AttributesTextCharacters(a, m, h1);
    AttributesTextCharacters(b, m, h1);
  }

  /** Each entry written as an attribute, in the order the entries come. */
  function Pieces(entries: seq<(string, AttributeValue)>, h: Host): (ps: seq<string>)
    ensures |ps| == |entries|
    ensures forall i | 0 <= i < |entries| :: ps[i] == AttributeText(entries[i].0, entries[i].1, h)
  {
    seq(|entries|, i requires 0 <= i < |entries| => AttributeText(entries[i].0, entries[i].1, h))
  }

  /** Strings written one after the other. */
  function Concat(ss: seq<string>): string {
    if ss == [] then "" else Concat(ss[..|ss| - 1]) + ss[|ss| - 1]
  }

  /** With every name valid, the attributes text is the written entries one
      after the other, each ` key="value"` with the value of its own key. */
  lemma {:induction false} AttributesTextIsConcat(entries: seq<(string, AttributeValue)>, h: Host)
    requires forall i | 0 <= i < |entries| :: IsValidAttributeName(entries[i].0)
    ensures AttributesText(entries, h) == Ok(Concat(Pieces(entries, h)))
  {
    if entries != [] {
      var init := entries[..|entries| - 1];
      assert forall i | 0 <= i < |init| :: init[i] == entries[i];
      AttributesTextIsConcat(init, h);
      assert Pieces(entries, h)[..|entries| - 1] == Pieces(init, h);
    }
  }

  /** The written entries of a list are those of all but its last entry,
      then the last entry written. */
  lemma PiecesSnoc(entries: seq<(string, AttributeValue)>, h: Host)
    requires entries != []
    ensures Pieces(entries, h) == Pieces(entries[..|entries| - 1], h) + [AttributeText(entries[|entries| - 1].0, entries[|entries| - 1].1, h)]
  {
  }

  /** One written attribute, counted once. */
  function PieceOf(h: Host): (string, AttributeValue) -> multiset<string> {
    (key: string, value: AttributeValue) => multiset{AttributeText(key, value, h)}
  }

  /** The written entries of any enumeration of `m` are the written entries
      of `m`, ` key="m[key]"` once per key, in some order. */
  lemma {:induction false} PiecesOfEnumeration(entries: seq<(string, AttributeValue)>, m: Attributes, h: Host)
    requires Enumerates(entries, m)
    ensures multiset(Pieces(entries, h)) == EntrySum(m, PieceOf(h))
    decreases |entries|
  {
    if entries == [] {
      EnumerationLength(entries, m);
      assert m == map[];
    } else {
      var init := entries[..|entries| - 1];
      var (key, value) := entries[|entries| - 1];
      EnumeratesDropLast(entries, m);
      PiecesOfEnumeration(init, m - {key}, h);
      EntrySumRemove(m, key, PieceOf(h));
      PiecesSnoc(entries, h);
      assert PieceOf(h)(key, value) == multiset{AttributeText(key, value, h)};
    }
  }

  /** The written entries of a map depend on how values are written, not on
      anything else the host does. */
  lemma {:induction false} EntrySumSameValueText(m: Attributes, h1: Host, h2: Host)
    requires h1.numberText == h2.numberText && h1.escapeUnquoted == h2.escapeUnquoted
    ensures EntrySum(m, PieceOf(h1)) == EntrySum(m, PieceOf(h2))
    decreases |m|
  {
    if m != map[] {
      var k := SomeKey(m);
      assert (m - {k}).Keys == m.Keys - {k};
      EntrySumSameValueText(m - {k}, h1, h2);
      assert ValueText(m[k], h1) == ValueText(m[k], h2);
    }
  }

  /** Two enumerations of one map, written by hosts that write values alike:
      both texts are their written entries one after the other, and the two
      lists of written entries are permutations of each other. */
  lemma AttributesTextPermutes(a: seq<(string, AttributeValue)>, b: seq<(string, AttributeValue)>, m: Attributes, h1: Host, h2: Host)
    requires Enumerates(a, m) && Enumerates(b, m)
    requires h1.numberText == h2.numberText && h1.escapeUnquoted == h2.escapeUnquoted
    requires forall k | k in m :: IsValidAttributeName(k)
    ensures AttributesText(a, h1) == Ok(Concat(Pieces(a, h1)))
    ensures AttributesText(b, h2) == Ok(Concat(Pieces(b, h2)))
    ensures multiset(Pieces(a, h1)) == multiset(Pieces(b, h2)) == EntrySum(m, PieceOf(h1))
  {
    AttributesTextIsConcat(a, h1);
    AttributesTextIsConcat(b, h2);
    PiecesOfEnumeration(a, m, h1);
    PiecesOfEnumeration(b, m, h2);
    EntrySumSameValueText(m, h1, h2);
  }

  /** A rendered element taken apart: text, or a tag with its name, its
      written attributes in the order they were written, and its children. */
  datatype Layout = LText(text: string) | LTag(name: string, pieces: seq<string>, children: seq<Layout>)

  /** The HTML a layout stands for. */
  function Flatten(l: Layout): string
    decreases l, 1
  {
    match l
    case LText(s) => s
    case LTag(name, pieces, children) =>
      "<" + name + Concat(pieces) + ">" + FlattenAll(children) + "</" + name + ">"
  }

  /** The HTML of a list of layouts, one after the other. */
  function FlattenAll(ls: seq<Layout>): string
    decreases ls, 0
  {
    if ls == [] then "" else FlattenAll(ls[..|ls| - 1]) + Flatten(ls[|ls| - 1])
  }

  /** How a host lays an element out: each tag's attributes in the host's
      iteration order. */
  function LayoutOf(e: Element, h: Host): Layout
    decreases e, 1
  {
    match e
    case Text(s) => LText(s)
    case Node(Tag(name, attributes, elementList)) =>
      LTag(name, if attributes == map[] then [] else Pieces(h.iterate(attributes), h), LayoutOfAll(elementList, h))
  }

  /** The layouts of a list of children. */
  function LayoutOfAll(es: seq<Element>, h: Host): (ls: seq<Layout>)
    ensures |ls| == |es|
    ensures forall i | 0 <= i < |es| :: ls[i] == LayoutOf(es[i], h)
    decreases es, 0
  {
    seq(|es|, i requires 0 <= i < |es| => LayoutOf(es[i], h))
  }

  /** `l` lays out `e`: the same text, the same tags with the same children,
      and at each tag the written attributes of its map, ` key="value"` once
      per key with that key's value, in whatever order. Only the way values
      are written enters; the iteration order does not. */
  ghost predicate Realizes(l: Layout, e: Element, h: Host)
    decreases e
  {
    match e
    case Text(s) => l == LText(s)
    case Node(Tag(name, attributes, elementList)) =>
      && l.LTag? && l.name == name
      && multiset(l.pieces) == EntrySum(attributes, PieceOf(h))
      && |l.children| == |elementList|
      && (forall i | 0 <= i < |elementList| :: Realizes(l.children[i], elementList[i], h))
  }

  /** Whether a layout lays out an element depends on how values are
      written, not on the rest of the host. */
  lemma {:induction false} RealizesSameValueText(l: Layout, e: Element, h1: Host, h2: Host)
    requires h1.numberText == h2.numberText && h1.escapeUnquoted == h2.escapeUnquoted
    requires Realizes(l, e, h1)
    ensures Realizes(l, e, h2)
    decreases e
  {
    match e
    case Text(_) =>
    case Node(Tag(name, attributes, elementList)) =>
      EntrySumSameValueText(attributes, h1, h2);
      forall i | 0 <= i < |elementList|
        ensures Realizes(l.children[i], elementList[i], h2)
      {
        RealizesSameValueText(l.children[i], elementList[i], h1, h2);
      }
  }

  /** A renderable element is written as the HTML of its layout under the
      host, and that layout lays the element out. */
  lemma {:induction false} RenderIsLayout(e: Element, h: Host)
    requires ValidHost(h) && IsRenderable(e)
    ensures Render(e, h) == Ok(Flatten(LayoutOf(e, h)))
    ensures Realizes(LayoutOf(e, h), e, h)
    decreases e, 1
  {
    match e
    case Text(_) =>
    case Node(Tag(name, attributes, elementList)) =>
      if attributes != map[] {
        var entries := h.iterate(attributes);
        assert Enumerates(entries, attributes);
        AttributesTextIsConcat(entries, h);
        PiecesOfEnumeration(entries, attributes, h);
      }
      RenderAllIsLayout(elementList, h);
  }

  /** The same for a list of renderable children. */
  lemma {:induction false} RenderAllIsLayout(es: seq<Element>, h: Host)
    requires ValidHost(h)
    requires forall i | 0 <= i < |es| :: IsRenderable(es[i])
    ensures RenderAll(es, h) == Ok(FlattenAll(LayoutOfAll(es, h)))
    ensures forall i | 0 <= i < |es| :: Realizes(LayoutOfAll(es, h)[i], es[i], h)
    decreases es, 0
  {
    if es != [] {
      var init := es[..|es| - 1];
      assert forall i | 0 <= i < |init| :: init[i] == es[i];
      RenderAllIsLayout(init, h);
      RenderIsLayout(es[|es| - 1], h);
      assert LayoutOfAll(es, h)[..|es| - 1] == LayoutOfAll(init, h);
    }
    forall i | 0 <= i < |es|
      ensures Realizes(LayoutOfAll(es, h)[i], es[i], h)
    {
      RenderIsLayout(es[i], h);
    }
  }

  /** The order in which the hash map hands out its entries decides neither
      whether an element can be written nor anything of the HTML but where
      the written attributes of a tag stand among themselves: both texts are
      the HTML of layouts that lay out the same element under the same way of
      writing values, so at each tag they hold the same ` key="value"`
      pieces, each value beside its own key. */
  lemma {:induction false} RenderIgnoresOrder(e: Element, h1: Host, h2: Host)
    requires ValidHost(h1) && ValidHost(h2)
    requires h1.numberText == h2.numberText && h1.escapeUnquoted == h2.escapeUnquoted
    ensures Render(e, h1).Ok? <==> Render(e, h2).Ok?
    ensures Render(e, h1).Ok? ==>
      && Render(e, h1) == Ok(Flatten(LayoutOf(e, h1)))
      && Render(e, h2) == Ok(Flatten(LayoutOf(e, h2)))
      && Realizes(LayoutOf(e, h1), e, h1)
      && Realizes(LayoutOf(e, h2), e, h1)
    ensures Render(e, h1).Ok? ==> multiset(Render(e, h1).value) == multiset(Render(e, h2).value)
    decreases e, 1
  {
    RenderOkIff(e, h1);
    RenderOkIff(e, h2);
    if IsRenderable(e) {
      RenderIsLayout(e, h1);
      RenderIsLayout(e, h2);
      RealizesSameValueText(LayoutOf(e, h2), e, h2, h1);
    }
    match e
    case Text(_) =>
    case Node(Tag(name, attributes, elementList)) =>
      if Render(e, h1).Ok? {
        if attributes != map[] {
          var a, b := h1.iterate(attributes), h2.iterate(attributes);
          assert Enumerates(a, attributes) && Enumerates(b, attributes);
          AttributesTextAgree(a, b, attributes, h1, h2);
        }
        RenderAllIgnoresOrder(elementList, h1, h2);
      }
  }

  /** The children of an element, likewise. */
  lemma {:induction false} RenderAllIgnoresOrder(es: seq<Element>, h1: Host, h2: Host)
    requires ValidHost(h1) && ValidHost(h2)
    requires h1.numberText == h2.numberText && h1.escapeUnquoted == h2.escapeUnquoted
    requires RenderAll(es, h1).Ok?
    ensures RenderAll(es, h2).Ok?
    ensures RenderAll(es, h1) == Ok(FlattenAll(LayoutOfAll(es, h1)))
    ensures RenderAll(es, h2) == Ok(FlattenAll(LayoutOfAll(es, h2)))
    ensures forall i | 0 <= i < |es| ::
      Realizes(LayoutOf(es[i], h1), es[i], h1) && Realizes(LayoutOf(es[i], h2), es[i], h1)
    ensures multiset(RenderAll(es, h1).value) == multiset(RenderAll(es, h2).value)
    decreases es, 0
  {
    RenderAllOkIff(es, h1);
    RenderAllIsLayout(es, h1);
    RenderAllIsLayout(es, h2);
    forall i | 0 <= i < |es|
      ensures Realizes(LayoutOf(es[i], h2), es[i], h1)
    {
      RealizesSameValueText(LayoutOf(es[i], h2), es[i], h2, h1);
    }
    if es != [] {
      var init, last := es[..|es| - 1], es[|es| - 1];
      RenderAllIgnoresOrder(init, h1, h2);
      RenderIgnoresOrder(last, h1, h2);
      var x1, y1 := RenderAll(init, h1).value, Render(last, h1).value;
      var x2, y2 := RenderAll(init, h2).value, Render(last, h2).value;
      assert multiset(x1 + y1) == multiset(x1) + multiset(y1);
      assert multiset(x2 + y2) == multiset(x2) + multiset(y2);
    }
  }
}
