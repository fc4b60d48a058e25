/**
 * `XmlIdentityHandler`: a SAX content handler that writes every event it
 * receives back out as XML text. The output file is modelled as the string
 * written so far; each callback returns the extended string.
 */
module XmlIdentityHandler {
  import opened XmlTools

  /** One `key="value"` pair, in the order the attribute mapping yields its keys. */
  datatype Attribute = Attribute(key: string, value: string)

  /** The SAX callbacks the handler overrides. */
  datatype Event =
    | StartElement(tag: string, attrs: seq<Attribute>)
    | EndElement(tag: string)
    | Characters(chars: string)
    | ProcessingInstruction(target: string, data: string)

  /** ` key="value"` for each attribute; values are written without escaping. */
  function AttributeText(attrs: seq<Attribute>): (r: string)
    ensures |attrs| == 0 <==> r == []
    ensures |attrs| > 0 ==> r[0] == ' ' && r[|r| - 1] == '"'
  {
    if |attrs| == 0 then []
    else " " + attrs[0].key + "=\"" + attrs[0].value + "\"" + AttributeText(attrs[1..])
  }

  /** The text one attribute contributes: a space, the key, `="`, the value, `"`. */
  lemma AttributeTextSingle(k: string, v: string)
    ensures AttributeText([Attribute(k, v)]) == [' '] + k + ['=', '"'] + v + ['"']
  {
    assert [Attribute(k, v)][1..] == [];
  }

  /** The attributes are written one after another, in sequence order. */
  lemma {:induction false} AttributeTextAppend(a: seq<Attribute>, b: seq<Attribute>)
    ensures AttributeText(a + b) == AttributeText(a) + AttributeText(b)
    decreases |a|
  {
    if |a| == 0 {
      assert a + b == b;
    } else {
      assert (a + b)[0] == a[0];
      assert (a + b)[1..] == a[1..] + b;
      AttributeTextAppend(a[1..], b);
      var h := " " + a[0].key + "=\"" + a[0].value + "\"";
      assert AttributeText(a + b) == h + AttributeText(a[1..] + b);
      assert AttributeText(a) == h + AttributeText(a[1..]);
    }
  }

  /** `writeStartTag`: `<tag`, the attributes, `>`; a missing or empty mapping writes none. */
  function WriteStartTag(out: string, tag: string, attrs: seq<Attribute>): (r: string)
    ensures out <= r && |r| >= |out| + |tag| + 2
    ensures r[|out|] == '<' && r[|r| - 1] == '>'
    ensures r[|out| + 1..|out| + 1 + |tag|] == tag
    ensures r[|out| + 1 + |tag|..|r| - 1] == AttributeText(attrs)
    ensures |attrs| == 0 ==> r == out + "<" + tag + ">"
  {
    out + "<" + tag + AttributeText(attrs) + ">"
  }

  /** `writeEndTag`: exactly `</tag>`. */
  function WriteEndTag(out: string, tag: string): (r: string)
    ensures out <= r && r[|out|..] == ['<', '/'] + tag + ['>']
  {
    out + "</" + tag + ">"
  }

  /** `characters`: the character data, escaped once and stripped of invalid controls. */
  function WriteCharacters(out: string, chars: string): (r: string)
    ensures out <= r
    ensures '<' !in r[|out|..] && '>' !in r[|out|..]
    ensures forall i :: |out| <= i < |r| ==> !IsInvalidControl(r[i])
    ensures AmpersandsAreEntities(r[|out|..])
    ensures Unescape(r[|out|..]) == RemoveInvalidControlCharacters(chars)
  {
    EscapeXmlIsSafe(chars);
    EscapeXmlRoundTrip(chars);
    var r := out + EscapeXml(chars);
    assert r[|out|..] == EscapeXml(chars);
    r
  }

  /** `processingInstruction`: `<?target data>`. */
  function WriteProcessingInstruction(out: string, target: string, data: string): (r: string)
    ensures out <= r && r[|out|..] == ['<', '?'] + target + [' '] + data + ['>']
  {
    out + "<?" + target + " " + data + ">"
  }

  /** Dispatches one event to its callback (`startElement`, `endElement`, ...). */
  function Handle(out: string, e: Event): (r: string)
    ensures out <= r
  {
    match e
    case StartElement(tag, attrs) => WriteStartTag(out, tag, attrs)
    case EndElement(tag) => WriteEndTag(out, tag)
    case Characters(chars) => WriteCharacters(out, chars)
    case ProcessingInstruction(target, data) => WriteProcessingInstruction(out, target, data)
  }

  /** The output after a stream of events, starting from `out`. */
  function HandleAll(out: string, es: seq<Event>): (r: string)
    ensures out <= r
    decreases |es|
  {
    if |es| == 0 then out else HandleAll(Handle(out, es[0]), es[1..])
  }

  /** Feeding two streams one after the other is feeding their concatenation. */
  lemma {:induction false} HandleAllAppend(out: string, es: seq<Event>, fs: seq<Event>)
    ensures HandleAll(out, es + fs) == HandleAll(HandleAll(out, es), fs)
    decreases |es|
  {
    if |es| == 0 {
      assert es + fs == fs;
    } else {
      assert (es + fs)[0] == es[0];
      assert (es + fs)[1..] == es[1..] + fs;
      HandleAllAppend(Handle(out, es[0]), es[1..], fs);
    }
  }

  // ---------------------------------------------------------------------------
  // Character data cannot inject markup
  // ---------------------------------------------------------------------------

  function Count(s: string, c: char): nat {
    if |s| == 0 then 0 else (if s[0] == c then 1 else 0) + Count(s[1..], c)
  }

  lemma {:induction false} CountAppend(a: string, b: string, c: char)
    ensures Count(a + b, c) == Count(a, c) + Count(b, c)
    decreases |a|
  {
    if |a| == 0 {
      assert a + b == b;
    } else {
      assert (a + b)[0] == a[0];
      assert (a + b)[1..] == a[1..] + b;
      CountAppend(a[1..], b, c);
    }
  }

  lemma {:induction false} CountAbsent(s: string, c: char)
    requires c !in s
    ensures Count(s, c) == 0
    decreases |s|
  {
    if |s| > 0 {
      assert c !in s[1..];
      CountAbsent(s[1..], c);
    }
  }

  /** The names the markup events write verbatim; `<` there would forge a tag. */
  predicate MarkupFree(e: Event) {
    match e
    case StartElement(tag, attrs) => '<' !in tag && '<' !in AttributeText(attrs)
    case EndElement(tag) => '<' !in tag
    case Characters(_) => true
    case ProcessingInstruction(target, data) => '<' !in target && '<' !in data
  }

  function MarkupEvents(es: seq<Event>): nat {
    if |es| == 0 then 0 else (if es[0].Characters? then 0 else 1) + MarkupEvents(es[1..])
  }

  lemma CountOpener(out: string, body: string)
    requires '<' !in body
    ensures Count(out + "<" + body, '<') == Count(out, '<') + 1
  {
    assert out + "<" + body == out + ("<" + body);
    CountAppend(out, "<" + body, '<');
    CountAppend("<", body, '<');
    CountAbsent(body, '<');
  }

  lemma AbsentFromConcat(x: string, y: string, c: char)
    requires c !in x && c !in y
    ensures c !in x + y
  {
  }

  /** A start tag is one `<` followed by the rest of the tag. */
  lemma StartTagShape(out: string, tag: string, attrs: seq<Attribute>)
    ensures WriteStartTag(out, tag, attrs) == out + "<" + (tag + AttributeText(attrs) + ">")
  {
  }

  lemma StartTagCount(out: string, tag: string, attrs: seq<Attribute>)
    requires '<' !in tag && '<' !in AttributeText(attrs)
    ensures Count(WriteStartTag(out, tag, attrs), '<') == Count(out, '<') + 1
  {
    AbsentFromConcat(tag, AttributeText(attrs), '<');
    AbsentFromConcat(tag + AttributeText(attrs), ">", '<');
    StartTagShape(out, tag, attrs);
    CountOpener(out, tag + AttributeText(attrs) + ">");
  }

  lemma EndTagCount(out: string, tag: string)
    requires '<' !in tag
    ensures Count(WriteEndTag(out, tag), '<') == Count(out, '<') + 1
  {
    AbsentFromConcat("/", tag, '<');
    AbsentFromConcat("/" + tag, ">", '<');
    assert out + "</" + tag + ">" == out + "<" + ("/" + tag + ">");
    CountOpener(out, "/" + tag + ">");
  }

  lemma CharactersCount(out: string, chars: string)
    ensures Count(WriteCharacters(out, chars), '<') == Count(out, '<')
  {
    EscapeXmlIsSafe(chars);
    CountAppend(out, EscapeXml(chars), '<');
    CountAbsent(EscapeXml(chars), '<');
  }

  lemma ProcessingInstructionCount(out: string, target: string, data: string)
    requires '<' !in target && '<' !in data
    ensures Count(WriteProcessingInstruction(out, target, data), '<') == Count(out, '<') + 1
  {
    var body := "?" + target + " " + data + ">";
    AbsentFromConcat("?", target, '<');
    AbsentFromConcat("?" + target, " ", '<');
    AbsentFromConcat("?" + target + " ", data, '<');
    AbsentFromConcat("?" + target + " " + data, ">", '<');
    assert out + "<?" + target + " " + data + ">" == out + "<" + body;
    CountOpener(out, body);
  }

  lemma HandleCount(out: string, e: Event)
    requires MarkupFree(e)
    ensures Count(Handle(out, e), '<') == Count(out, '<') + (if e.Characters? then 0 else 1)
  {
    match e
    case StartElement(tag, attrs) => StartTagCount(out, tag, attrs);
    case EndElement(tag) => EndTagCount(out, tag);
    case Characters(chars) => CharactersCount(out, chars);
    case ProcessingInstruction(target, data) => ProcessingInstructionCount(out, target, data);
  }

  /**
   * Attribute values are written unescaped, so a value holding `<` (which a
   * parser delivers for `&lt;`) puts a second `<` into a single start tag.
   */
  lemma UnescapedAttributeValueAddsOpener()
    ensures Count(WriteStartTag("", "a", [Attribute("k", "<")]), '<') == 2
  {
    var x, y := " k=\"", "\">";
    AttributeTextSingle("k", "<");
    StartTagShape("", "a", [Attribute("k", "<")]);
    var head := "" + "<" + ("a" + x);
    assert WriteStartTag("", "a", [Attribute("k", "<")]) == head + "<" + y;
    CountOpener("", "a" + x);
    CountOpener(head, y);
  }

  /**
   * Every `<` the handler writes opens a tag or processing instruction of its
   * own: whatever the character data holds, the output has exactly one `<`
   * per markup event.
   */
  lemma {:induction false} OneOpenerPerMarkupEvent(out: string, es: seq<Event>)
    requires forall k :: 0 <= k < |es| ==> MarkupFree(es[k])
    ensures Count(HandleAll(out, es), '<') == Count(out, '<') + MarkupEvents(es)
    decreases |es|
  {
    if |es| > 0 {
      HandleCount(out, es[0]);
      OneOpenerPerMarkupEvent(Handle(out, es[0]), es[1..]);
    }
  }
}
