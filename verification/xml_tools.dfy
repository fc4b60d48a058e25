/**
 * Enso's XML text utilities: removal of the control characters that well-formed
 * XML cannot carry, one-pass escaping of character data, and the inner text of a
 * DOM subtree.
 */
module XmlTools {
  import Text
  import Seqs

  /** The 29 code points that expat classes as not allowed in XML text. */
  const InvalidControlCharacters: seq<int> := [
    0x00, 0x01, 0x02, 0x03, 0x04, 0x05, 0x06, 0x07, 0x08,
    0x0b, 0x0c,
    0x0e, 0x0f, 0x10, 0x11, 0x12, 0x13, 0x14, 0x15, 0x16, 0x17,
    0x18, 0x19, 0x1a, 0x1b, 0x1c, 0x1d, 0x1e, 0x1f
  ]

  /** The C0 controls other than tab, LF and CR. */
  predicate IsInvalidControl(c: char) {
    c as int < 0x20 && c != '\t' && c != '\n' && c != '\r'
  }

  /**
   * The table holds 29 distinct code points, and a character is in it exactly
   * when it is one of the controls `IsInvalidControl` names.
   */
  lemma InvalidControlCharactersExactly(c: char)
    ensures IsInvalidControl(c) <==> c as int in InvalidControlCharacters
  {
  }

  lemma InvalidControlCharactersAscending()
    ensures |InvalidControlCharacters| == 29
    ensures forall i, j :: 0 <= i < j < |InvalidControlCharacters| ==>
      InvalidControlCharacters[i] < InvalidControlCharacters[j]
  {
  }

  // ---------------------------------------------------------------------------
  // removeInvalidControlCharacters
  // ---------------------------------------------------------------------------

  /** `string.translate` with the invalid control characters as deletechars. */
  function RemoveInvalidControlCharacters(s: string): (r: string)
    ensures |r| <= |s|
    ensures forall i :: 0 <= i < |r| ==> !IsInvalidControl(r[i])
    ensures forall c :: c in r <==> c in s && !IsInvalidControl(c)
  {
    if |s| == 0 then []
    else if IsInvalidControl(s[0]) then RemoveInvalidControlCharacters(s[1..])
    else [s[0]] + RemoveInvalidControlCharacters(s[1..])
  }

  /**
   * The filter distributes over concatenation, so the surviving characters keep
   * their original order; a single character survives exactly when it is valid.
   */
  lemma {:induction false} RemoveDistributes(a: string, b: string)
    ensures RemoveInvalidControlCharacters(a + b)
         == RemoveInvalidControlCharacters(a) + RemoveInvalidControlCharacters(b)
    ensures RemoveInvalidControlCharacters([]) == []
    decreases |a|
  {
    if |a| == 0 {
      assert a + b == b;
    } else {
      assert (a + b)[0] == a[0];
      assert (a + b)[1..] == a[1..] + b;
      RemoveDistributes(a[1..], b);
    }
  }

  lemma RemoveSingle(c: char)
    ensures RemoveInvalidControlCharacters([c]) == if IsInvalidControl(c) then [] else [c]
  {
  }

  /** A string without invalid characters is returned unchanged. */
  lemma {:induction false} RemoveKeepsClean(s: string)
    requires forall i :: 0 <= i < |s| ==> !IsInvalidControl(s[i])
    ensures RemoveInvalidControlCharacters(s) == s
    decreases |s|
  {
    if |s| > 0 {
      RemoveKeepsClean(s[1..]);
      assert [s[0]] + s[1..] == s;
    }
  }

  lemma RemoveIdempotent(s: string)
    ensures RemoveInvalidControlCharacters(RemoveInvalidControlCharacters(s))
         == RemoveInvalidControlCharacters(s)
  {
    RemoveKeepsClean(RemoveInvalidControlCharacters(s));
  }

  // ---------------------------------------------------------------------------
  // escapeXml
  // ---------------------------------------------------------------------------

  /** `s.replace(c, rep)` for a one-character pattern. */
  function ReplaceChar(s: string, c: char, rep: string): (r: string)
    ensures forall d :: d in r ==> (d in s && d != c) || d in rep
    ensures c !in rep ==> c !in r
  {
    if |s| == 0 then []
    else (if s[0] == c then rep else [s[0]]) + ReplaceChar(s[1..], c, rep)
  }

  lemma {:induction false} ReplaceDistributes(a: string, b: string, c: char, rep: string)
    ensures ReplaceChar(a + b, c, rep) == ReplaceChar(a, c, rep) + ReplaceChar(b, c, rep)
    decreases |a|
  {
    if |a| == 0 {
      assert a + b == b;
    } else {
      assert (a + b)[0] == a[0];
      assert (a + b)[1..] == a[1..] + b;
      ReplaceDistributes(a[1..], b, c, rep);
    }
  }

  lemma ReplaceSingle(d: char, c: char, rep: string)
    ensures ReplaceChar([d], c, rep) == if d == c then rep else [d]
  {
    assert [d][1..] == [];
  }

  lemma {:induction false} ReplaceAbsent(s: string, c: char, rep: string)
    requires c !in s
    ensures ReplaceChar(s, c, rep) == s
    decreases |s|
  {
    if |s| > 0 {
      assert s[1..] + [] == s[1..];
      assert c !in s[1..];
      ReplaceAbsent(s[1..], c, rep);
      assert [s[0]] + s[1..] == s;
    }
  }

  const Amp: string := "&amp;"
  const Lt: string := "&lt;"
  const Gt: string := "&gt;"

  /** The three ordered `replace` calls of `escapeXml`, then the control-character filter. */
  function EscapeXml(s: string): (r: string)
    ensures '<' !in r && '>' !in r
    ensures forall i :: 0 <= i < |r| ==> !IsInvalidControl(r[i])
  {
    var s1 := ReplaceChar(s, '&', Amp);
    var s2 := ReplaceChar(s1, '<', Lt);
    var s3 := ReplaceChar(s2, '>', Gt);
    RemoveInvalidControlCharacters(s3)
  }

  /** Reference definition: what one character of input becomes in the output. */
  function EscapeChar(c: char): string {
    if c == '&' then Amp
    else if c == '<' then Lt
    else if c == '>' then Gt
    else if IsInvalidControl(c) then []
    else [c]
  }

  /** Reference definition: every character escaped once, independently of the others. */
  function EscapeRef(s: string): string {
    if |s| == 0 then [] else EscapeChar(s[0]) + EscapeRef(s[1..])
  }

  lemma EscapeXmlSingle(c: char)
    ensures EscapeXml([c]) == EscapeChar(c)
  {
    ReplaceSingle(c, '&', Amp);
    if c == '&' {
      EntityUnchanged(Amp);
    } else if c == '<' {
      ReplaceSingle(c, '<', Lt);
      EntityUnchanged(Lt);
    } else if c == '>' {
      ReplaceSingle(c, '<', Lt);
      ReplaceSingle(c, '>', Gt);
      RemoveKeepsClean(Gt);
    } else {
      ReplaceSingle(c, '<', Lt);
      ReplaceSingle(c, '>', Gt);
      RemoveSingle(c);
    }
  }

  /** An entity that holds neither `<`, `>` nor a control character passes the later steps unchanged. */
  lemma EntityUnchanged(e: string)
    requires '<' !in e && '>' !in e
    requires forall i :: 0 <= i < |e| ==> !IsInvalidControl(e[i])
    ensures RemoveInvalidControlCharacters(ReplaceChar(ReplaceChar(e, '<', Lt), '>', Gt)) == e
    ensures RemoveInvalidControlCharacters(ReplaceChar(e, '>', Gt)) == e
  {
    ReplaceAbsent(e, '<', Lt);
    ReplaceAbsent(e, '>', Gt);
    RemoveKeepsClean(e);
  }

  lemma EscapeXmlDistributes(a: string, b: string)
    ensures EscapeXml(a + b) == EscapeXml(a) + EscapeXml(b)
  {
    var a1, b1 := ReplaceChar(a, '&', Amp), ReplaceChar(b, '&', Amp);
    ReplaceDistributes(a, b, '&', Amp);
    var a2, b2 := ReplaceChar(a1, '<', Lt), ReplaceChar(b1, '<', Lt);
    ReplaceDistributes(a1, b1, '<', Lt);
    var a3, b3 := ReplaceChar(a2, '>', Gt), ReplaceChar(b2, '>', Gt);
    ReplaceDistributes(a2, b2, '>', Gt);
    RemoveDistributes(a3, b3);
  }

  /**
   * Replacing `&` first makes the three sequential replacements equal to
   * escaping each character once: no `&` introduced by a later replacement is
   * itself replaced.
   */
  lemma {:induction false} EscapeXmlIsEscapeRef(s: string)
    ensures EscapeXml(s) == EscapeRef(s)
    decreases |s|
  {
    if |s| == 0 {
      RemoveDistributes([], []);
    } else {
      assert s == [s[0]] + s[1..];
      EscapeXmlDistributes([s[0]], s[1..]);
      EscapeXmlSingle(s[0]);
      EscapeXmlIsEscapeRef(s[1..]);
    }
  }

  /** Every `&` of `s` starts one of the three entities this module emits. */
  predicate AmpersandsAreEntities(s: string) {
    forall i :: 0 <= i < |s| && s[i] == '&' ==>
      Amp <= s[i..] || Lt <= s[i..] || Gt <= s[i..]
  }

  lemma EntitiesConcat(a: string, b: string)
    requires AmpersandsAreEntities(a) && AmpersandsAreEntities(b)
    ensures AmpersandsAreEntities(a + b)
  {
    var ab := a + b;
    forall i | 0 <= i < |ab| && ab[i] == '&'
      ensures Amp <= ab[i..] || Lt <= ab[i..] || Gt <= ab[i..]
    {
      if i < |a| {
        assert a[i] == '&';
        assert ab[i..] == a[i..] + b;
      } else {
        assert b[i - |a|] == '&';
        assert ab[i..] == b[i - |a|..];
      }
    }
  }

  /** Well-formed character data: no raw markup, no invalid control, every `&` an entity. */
  predicate SafeCharacterData(s: string) {
    && '<' !in s && '>' !in s
    && (forall i :: 0 <= i < |s| ==> !IsInvalidControl(s[i]))
    && AmpersandsAreEntities(s)
  }

  lemma SafeConcat(a: string, b: string)
    requires SafeCharacterData(a) && SafeCharacterData(b)
    ensures SafeCharacterData(a + b)
  {
    EntitiesConcat(a, b);
    assert forall i :: 0 <= i < |a + b| ==> (a + b)[i] == if i < |a| then a[i] else b[i - |a|];
  }

  /** A string that starts with an entity and holds no other `&` is safe if it holds no markup. */
  lemma LeadingEntitySafe(e: string)
    requires |e| > 0 && (Amp <= e || Lt <= e || Gt <= e)
    requires forall i :: 0 < i < |e| ==> e[i] != '&'
    requires '<' !in e && '>' !in e
    requires forall i :: 0 <= i < |e| ==> !IsInvalidControl(e[i])
    ensures SafeCharacterData(e)
  {
    assert e[0..] == e;
    forall i | 0 <= i < |e| && e[i] == '&'
      ensures Amp <= e[i..] || Lt <= e[i..] || Gt <= e[i..]
    {
      assert i == 0;
    }
  }

  lemma EntitySafe(e: string)
    requires e == Amp || e == Lt || e == Gt
    ensures SafeCharacterData(e)
  {
    assert e <= e;
    LeadingEntitySafe(e);
  }

  lemma EscapeCharSafe(c: char)
    ensures SafeCharacterData(EscapeChar(c))
  {
    var e := EscapeChar(c);
    if e == Amp || e == Lt || e == Gt {
      EntitySafe(e);
    } else if !IsInvalidControl(c) {
      assert e == [c];
    }
  }

  lemma {:induction false} EscapeRefProperties(s: string)
    ensures SafeCharacterData(EscapeRef(s))
    decreases |s|
  {
    if |s| > 0 {
      EscapeCharSafe(s[0]);
      EscapeRefProperties(s[1..]);
      SafeConcat(EscapeChar(s[0]), EscapeRef(s[1..]));
    }
  }

  /**
   * The output of `escapeXml` holds no raw `<` or `>`, none of the invalid
   * control characters, and each of its `&` begins `&amp;`, `&lt;` or `&gt;`.
   */
  lemma EscapeXmlIsSafe(s: string)
    ensures '<' !in EscapeXml(s) && '>' !in EscapeXml(s)
    ensures forall i :: 0 <= i < |EscapeXml(s)| ==> !IsInvalidControl(EscapeXml(s)[i])
    ensures AmpersandsAreEntities(EscapeXml(s))
  {
    EscapeXmlIsEscapeRef(s);
    EscapeRefProperties(s);
  }

  /** Decodes `&amp;`, `&lt;` and `&gt;` once, left to right. */
  function Unescape(s: string): (r: string)
    ensures |r| <= |s|
    decreases |s|
  {
    if |s| == 0 then []
    else if Amp <= s then "&" + Unescape(s[|Amp|..])
    else if Lt <= s then "<" + Unescape(s[|Lt|..])
    else if Gt <= s then ">" + Unescape(s[|Gt|..])
    else [s[0]] + Unescape(s[1..])
  }

  lemma UnescapeStep(c: char, rest: string)
    ensures Unescape(EscapeChar(c) + rest) == RemoveInvalidControlCharacters([c]) + Unescape(rest)
  {
    var e := EscapeChar(c) + rest;
    RemoveSingle(c);
    if c == '&' {
      assert Amp <= e;
      assert e[|Amp|..] == rest;
    } else if c == '<' {
      assert e[1] == 'l' != Amp[1];
      assert Lt <= e;
      assert e[|Lt|..] == rest;
    } else if c == '>' {
      assert e[1] == 'g' != Amp[1] && e[1] != Lt[1];
      assert Gt <= e;
      assert e[|Gt|..] == rest;
    } else if IsInvalidControl(c) {
      assert e == rest;
    } else {
      assert e[0] == c && e[1..] == rest;
    }
  }

  /**
   * "Escaped once": decoding the three entities once in `escapeXml(s)` gives
   * back `s` without its invalid control characters.
   */
  lemma {:induction false} EscapeXmlRoundTrip(s: string)
    ensures Unescape(EscapeXml(s)) == RemoveInvalidControlCharacters(s)
    decreases |s|
  {
    EscapeXmlIsEscapeRef(s);
    if |s| > 0 {
      UnescapeStep(s[0], EscapeRef(s[1..]));
      EscapeXmlRoundTrip(s[1..]);
      EscapeXmlIsEscapeRef(s[1..]);
      assert s == [s[0]] + s[1..];
      RemoveDistributes([s[0]], s[1..]);
    }
  }

  // ---------------------------------------------------------------------------
  // getInnerText
  // ---------------------------------------------------------------------------

  /** The DOM node kinds `getInnerText` can meet; only elements have children. */
  datatype Node =
    | TextNode(data: string)
    | CDataSection(data: string)
    | Element(tag: string, children: seq<Node>)
    | Comment(data: string)
    | ProcessingInstruction(target: string, data: string)

  function ChildNodes(n: Node): (cs: seq<Node>)
    ensures forall k :: 0 <= k < |cs| ==> cs[k] < n
  {
    if n.Element? then n.children else []
  }

  /** `getInnerText(node)`: the joined contributions of the children, stripped. */
  function GetInnerText(n: Node): (r: string)
    ensures Text.Stripped(r)
    decreases n, 1
  {
    Text.Strip(JoinChildren(ChildNodes(n), n))
  }

  /** What the loop of `getInnerText` appends for each child, in document order. */
  function JoinChildren(cs: seq<Node>, ghost parent: Node): string
    requires forall k :: 0 <= k < |cs| ==> cs[k] < parent
    decreases parent, 0, |cs|
  {
    if |cs| == 0 then []
    else Contribution(cs[0]) + JoinChildren(cs[1..], parent)
  }

  /** Text and CDATA children give their data verbatim; every other child its own inner text. */
  function Contribution(n: Node): (r: string)
    ensures !(n.TextNode? || n.CDataSection?) ==> Text.Stripped(r)
    decreases n, 2
  {
    if n.TextNode? || n.CDataSection? then n.data else GetInnerText(n)
  }

  /** The first child's contribution comes first. */
  lemma JoinChildrenCons(cs: seq<Node>, parent: Node)
    requires |cs| > 0
    requires forall k :: 0 <= k < |cs| ==> cs[k] < parent
    ensures JoinChildren(cs, parent) == Contribution(cs[0]) + JoinChildren(cs[1..], parent)
  {
  }

  lemma ChildrenBelow(a: seq<Node>, b: seq<Node>, parent: Node)
    requires forall k :: 0 <= k < |a| ==> a[k] < parent
    requires forall k :: 0 <= k < |b| ==> b[k] < parent
    ensures forall k :: 0 <= k < |a + b| ==> (a + b)[k] < parent
    ensures |a| > 0 ==> (a + b)[0] == a[0] && (a + b)[1..] == a[1..] + b
  {
    if |a| > 0 {
      assert (a + b)[1..] == a[1..] + b;
    }
  }

  lemma ConcatAssoc(x: string, y: string, z: string)
    ensures x + (y + z) == x + y + z
  {
  }

  lemma JoinChildrenNil(b: seq<Node>, parent: Node)
    requires forall k :: 0 <= k < |b| ==> b[k] < parent
    ensures JoinChildren([] + b, parent) == JoinChildren([], parent) + JoinChildren(b, parent)
  {
    assert [] + b == b;
  }

  lemma JoinChildrenStep(a: seq<Node>, b: seq<Node>, parent: Node)
    requires |a| > 0
    requires forall k :: 0 <= k < |a| ==> a[k] < parent
    requires forall k :: 0 <= k < |b| ==> b[k] < parent
    requires JoinChildren(a[1..] + b, parent) == JoinChildren(a[1..], parent) + JoinChildren(b, parent)
    ensures JoinChildren(a + b, parent) == JoinChildren(a, parent) + JoinChildren(b, parent)
  {
    ChildrenBelow(a, b, parent);
    JoinChildrenCons(a + b, parent);
    JoinChildrenCons(a, parent);
    ConcatAssoc(Contribution(a[0]), JoinChildren(a[1..], parent), JoinChildren(b, parent));
  }

  /** The text of a child sequence is the text of its parts, in document order. */
  lemma {:induction false} JoinChildrenAppend(a: seq<Node>, b: seq<Node>, parent: Node)
    requires forall k :: 0 <= k < |a| ==> a[k] < parent
    requires forall k :: 0 <= k < |b| ==> b[k] < parent
    ensures JoinChildren(a + b, parent) == JoinChildren(a, parent) + JoinChildren(b, parent)
    decreases |a|
  {
    if |a| == 0 {
      assert a == [];
      JoinChildrenNil(b, parent);
    } else {
      JoinChildrenAppend(a[1..], b, parent);
      JoinChildrenStep(a, b, parent);
    }
  }

  /** Collects the data of every text and CDATA node below `n`, in document order. */
  function AllText(n: Node): string
    decreases n, 1
  {
    AllTextOf(ChildNodes(n), n)
  }

  function AllTextOf(cs: seq<Node>, ghost parent: Node): string
    requires forall k :: 0 <= k < |cs| ==> cs[k] < parent
    decreases parent, 0, |cs|
  {
    if |cs| == 0 then []
    else (if cs[0].TextNode? || cs[0].CDataSection? then cs[0].data else AllText(cs[0]))
         + AllTextOf(cs[1..], parent)
  }

  /**
   * Stripping at every level only removes characters: every character of the
   * inner text comes from a text or CDATA node below `n`, so comments,
   * processing instructions and tag names contribute nothing.
   */
  lemma {:induction false} InnerTextFromTextNodes(n: Node)
    ensures forall c :: c in GetInnerText(n) ==> c in AllText(n)
    decreases n, 1
  {
    JoinFromTextNodes(ChildNodes(n), n);
    var j := JoinChildren(ChildNodes(n), n);
    Text.StripSplits(j);
  }

  lemma {:induction false} JoinFromTextNodes(cs: seq<Node>, parent: Node)
    requires forall k :: 0 <= k < |cs| ==> cs[k] < parent
    ensures forall c :: c in JoinChildren(cs, parent) ==> c in AllTextOf(cs, parent)
    decreases parent, 0, |cs|
  {
    if |cs| > 0 {
      if !(cs[0].TextNode? || cs[0].CDataSection?) {
        InnerTextFromTextNodes(cs[0]);
      }
      JoinFromTextNodes(cs[1..], parent);
    }
  }

  /** An element whose children are all text: the inner text is their stripped concatenation. */
  lemma {:induction false} InnerTextOfTextChildren(tag: string, texts: seq<string>)
    ensures GetInnerText(Element(tag, seq(|texts|, k requires 0 <= k < |texts| => TextNode(texts[k]))))
         == Text.Strip(Seqs.Concat(texts))
  {
    var cs := seq(|texts|, k requires 0 <= k < |texts| => TextNode(texts[k]));
    var e := Element(tag, cs);
    JoinOfTexts(texts, cs, e);
  }

  lemma {:induction false} JoinOfTexts(texts: seq<string>, cs: seq<Node>, parent: Node)
    requires |cs| == |texts|
    requires forall k :: 0 <= k < |cs| ==> cs[k] == TextNode(texts[k]) && cs[k] < parent
    ensures JoinChildren(cs, parent) == Seqs.Concat(texts)
    decreases |cs|
  {
    if |cs| > 0 {
      JoinOfTexts(texts[1..], cs[1..], parent);
    }
  }

  // ---------------------------------------------------------------------------
  // getInnerText over whole trees
  // ---------------------------------------------------------------------------

  predicate SpaceFree(s: string) {
    forall i :: 0 <= i < |s| ==> !Text.IsSpace(s[i])
  }

  lemma SpaceFreeSplit(x: string, y: string)
    requires SpaceFree(x + y)
    ensures SpaceFree(x) && SpaceFree(y)
  {
    assert forall i :: 0 <= i < |x| ==> x[i] == (x + y)[i];
    assert forall i :: 0 <= i < |y| ==> y[i] == (x + y)[|x| + i];
  }

  /**
   * When no text or CDATA node below `n` holds whitespace, there is nothing
   * for `strip` to remove at any level, and the inner text is the data of
   * all those nodes, concatenated in document order.
   */
  lemma {:induction false} InnerTextIsAllText(n: Node)
    requires SpaceFree(AllText(n))
    ensures GetInnerText(n) == AllText(n)
    decreases n, 1
  {
    JoinIsAllTextOf(ChildNodes(n), n);
    var j := AllText(n);
    Text.StripUnique([], j, []);
    assert [] + j + [] == j;
  }

  lemma {:induction false} JoinIsAllTextOf(cs: seq<Node>, parent: Node)
    requires forall k :: 0 <= k < |cs| ==> cs[k] < parent
    requires SpaceFree(AllTextOf(cs, parent))
    ensures JoinChildren(cs, parent) == AllTextOf(cs, parent)
    decreases parent, 0, |cs|
  {
    if |cs| > 0 {
      var head := if cs[0].TextNode? || cs[0].CDataSection? then cs[0].data else AllText(cs[0]);
      SpaceFreeSplit(head, AllTextOf(cs[1..], parent));
      if !(cs[0].TextNode? || cs[0].CDataSection?) {
        InnerTextIsAllText(cs[0]);
      }
      JoinIsAllTextOf(cs[1..], parent);
    }
  }
}
