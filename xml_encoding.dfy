/**
 * The text that Python's `xml.etree.ElementTree.tostring(root, encoding="unicode")`
 * produces for elements without attributes, namespaces or tails: no XML
 * declaration, no indentation, character data escaped for `&`, `<` and `>`,
 * and an element with neither text nor children written in the short form
 * `<tag />`. Beside it, a reference reader for text-only child elements that
 * follows the XML 1.0 predefined entities (section 4.6 of the XML 1.0
 * recommendation).
 */
module XmlEncoding {
  import opened Wrappers
  import opened Text

  /**
   * An element as ElementTree holds it: a tag, its text ("" when ElementTree
   * holds None or an empty string; both are written the same way), and its
   * children in document order.
   */
  datatype Element = Element(tag: string, text: string, children: seq<Element>)

  // ---------------------------------------------------------------------------
  // Writing
  // ---------------------------------------------------------------------------

  /** How one character of character data is written. */
  function EscapeCDataChar(c: char): (e: string)
  {
    if c == '&' then "&amp;"
    else if c == '<' then "&lt;"
    else if c == '>' then "&gt;"
    else [c]
  }

  /**
   * Character data with `&`, `<` and `>` replaced by entity references. The
   * library replaces the three characters one after another over the whole
   * string, `&` first; since the replacements for `<` and `>` bring in no `<`
   * or `>` and are made after `&`, that is the same as escaping each
   * character on its own.
   */
  function EscapeCData(s: string): (e: string)
  {
    if s == [] then [] else EscapeCDataChar(s[0]) + EscapeCData(s[1..])
  }

  function StartTag(tag: string): string
  {
    "<" + tag + ">"
  }

  function EndTag(tag: string): string
  {
    "</" + tag + ">"
  }

  /** The short form of an element with neither text nor children. */
  function EmptyTag(tag: string): string
  {
    "<" + tag + " />"
  }

  /** The serialization of an element and its subtree. */
  function Serialize(e: Element): (text: string)
    decreases e, 1
  {
    if e.text != [] || e.children != [] then
      StartTag(e.tag) + (EscapeCData(e.text) + (SerializeAll(e.children) + EndTag(e.tag)))
    else
      EmptyTag(e.tag)
  }

  function SerializeAll(es: seq<Element>): (text: string)
    decreases es, 0
  {
    if es == [] then [] else Serialize(es[0]) + SerializeAll(es[1..])
  }

  /** A text-only element: the short form when the text is empty, else its escaped text between tags. */
  lemma LeafShape(tag: string, t: string)
    ensures Serialize(Element(tag, t, [])) ==
      if t == [] then EmptyTag(tag) else StartTag(tag) + (EscapeCData(t) + EndTag(tag))
  {
    assert SerializeAll([]) == [];
    assert [] + EndTag(tag) == EndTag(tag);
  }

  // ---------------------------------------------------------------------------
  // Reading
  // ---------------------------------------------------------------------------

  /** A predefined entity reference at the head of s, and the rest after it. */
  function DecodeEntity(s: string): (r: Option<(char, string)>)
    ensures r.Some? ==> |r.value.1| < |s|
  {
    if "&amp;" <= s then Some(('&', s[5..]))
    else if "&lt;" <= s then Some(('<', s[4..]))
    else if "&gt;" <= s then Some(('>', s[4..]))
    else if "&quot;" <= s then Some(('"', s[6..]))
    else if "&apos;" <= s then Some(('\'', s[6..]))
    else None
  }

  /**
   * Character data up to the next `<` (or the end): the decoded text and the
   * rest, which is empty or starts with `<`. A `&` that does not start a
   * predefined entity makes the document ill-formed.
   */
  function ParseText(s: string): (r: Option<(string, string)>)
    ensures r.Some? ==> |r.value.1| <= |s|
    ensures r.Some? ==> r.value.1 == [] || r.value.1[0] == '<'
    decreases |s|
  {
    if s == [] || s[0] == '<' then Some(([], s))
    else
      match NextChar(s)
      case None => None
      case Some((c, rest)) =>
        match ParseText(rest)
        case None => None
        case Some((t, after)) => Some(([c] + t, after))
  }

  /** The character at the head of non-empty character data, and the rest after it. */
  function NextChar(s: string): (r: Option<(char, string)>)
    requires s != []
    ensures r.Some? ==> |r.value.1| < |s|
  {
    if s[0] == '&' then DecodeEntity(s) else Some((s[0], s[1..]))
  }

  /** Character data whose first character reads back, then the rest. */
  lemma ParseTextStep(s: string, c: char, tail: string, t: string, rest: string)
    requires s != [] && s[0] != '<' && NextChar(s) == Some((c, tail))
    requires ParseText(tail) == Some((t, rest))
    ensures ParseText(s) == Some(([c] + t, rest))
  {
  }

  /** An element with the given tag and text only, at the head of s: its text and the rest. */
  function ParseLeaf(tag: string, s: string): (r: Option<(string, string)>)
    ensures r.Some? ==> |r.value.1| < |s|
  {
    var empty, open, close := EmptyTag(tag), StartTag(tag), EndTag(tag);
    if empty <= s then Some(([], s[|empty|..]))
    else if open <= s then
      match ParseText(s[|open|..])
      case None => None
      case Some((t, rest)) => if close <= rest then Some((t, rest[|close|..])) else None
    else None
  }

  // ---------------------------------------------------------------------------
  // Properties
  // ---------------------------------------------------------------------------

  lemma EntityAfterAmpersand(c: char, rest: string)
    requires c == '&' || c == '<' || c == '>'
    ensures DecodeEntity(EscapeCDataChar(c) + rest) == Some((c, rest))
  {
    var s := EscapeCDataChar(c) + rest;
    if c == '&' {
      assert "&amp;" <= s && s[5..] == rest;
    } else if c == '<' {
      assert s[1] == 'l' != "&amp;"[1];
      assert "&lt;" <= s && s[4..] == rest;
    } else {
      assert s[1] == 'g' != "&amp;"[1] && s[1] != "&lt;"[1];
      assert "&gt;" <= s && s[4..] == rest;
    }
  }

  lemma EscapeCDataCharDecodes(c: char, rest: string)
    ensures EscapeCDataChar(c) + rest != [] && (EscapeCDataChar(c) + rest)[0] != '<'
    ensures NextChar(EscapeCDataChar(c) + rest) == Some((c, rest))
  {
    if c == '&' || c == '<' || c == '>' {
      EntityAfterAmpersand(c, rest);
    } else {
      assert ([c] + rest)[1..] == rest;
    }
  }

  /** Escaped character data reads back as the original text, up to the next markup. */
  lemma {:induction false} EscapeCDataDecodes(t: string, rest: string)
    requires rest == [] || rest[0] == '<'
    ensures ParseText(EscapeCData(t) + rest) == Some((t, rest))
  {
    if t == [] {
      assert EscapeCData(t) + rest == rest;
    } else {
      var tail := EscapeCData(t[1..]) + rest;
      assert EscapeCData(t) + rest == EscapeCDataChar(t[0]) + tail;
      EscapeCDataCharDecodes(t[0], tail);
      EscapeCDataDecodes(t[1..], rest);
      ParseTextStep(EscapeCData(t) + rest, t[0], tail, t[1..], rest);
      assert [t[0]] + t[1..] == t;
    }
  }

  /** Escaped character data never holds markup characters. */
  lemma {:induction false} EscapeCDataHasNoMarkup(t: string)
    ensures forall i :: 0 <= i < |EscapeCData(t)| ==> EscapeCData(t)[i] != '<' && EscapeCData(t)[i] != '>'
  {
    if t != [] {
      EscapeCDataHasNoMarkup(t[1..]);
      var e, r := EscapeCDataChar(t[0]), EscapeCData(t[1..]);
      forall i | 0 <= i < |e + r| ensures (e + r)[i] != '<' && (e + r)[i] != '>' {
        if i >= |e| {
          assert (e + r)[i] == r[i - |e|];
        }
      }
    }
  }

  /** Text without `&`, `<` or `>` is written unchanged. */
  lemma {:induction false} EscapeCDataPlain(t: string)
    requires '&' !in t && '<' !in t && '>' !in t
    ensures EscapeCData(t) == t
  {
    if t != [] {
      assert t == [t[0]] + t[1..];
      EscapeCDataPlain(t[1..]);
    }
  }

  /** A non-empty text without markup characters is written between the tags unchanged. */
  lemma PlainLeaf(tag: string, t: string)
    requires t != [] && '&' !in t && '<' !in t && '>' !in t
    ensures Serialize(Element(tag, t, [])) == StartTag(tag) + (t + EndTag(tag))
  {
    LeafShape(tag, t);
    EscapeCDataPlain(t);
  }

  lemma EmptyLeafDecodes(tag: string, rest: string)
    ensures ParseLeaf(tag, EmptyTag(tag) + rest) == Some(([], rest))
  {
    var s := EmptyTag(tag) + rest;
    assert EmptyTag(tag) <= s;
    assert s[|EmptyTag(tag)|..] == rest;
  }

  lemma TextLeafDecodes(tag: string, t: string, rest: string)
    ensures ParseLeaf(tag, StartTag(tag) + (EscapeCData(t) + (EndTag(tag) + rest))) == Some((t, rest))
  {
    var open, close := StartTag(tag), EndTag(tag);
    var after := EscapeCData(t) + (close + rest);
    var s := open + after;
    assert s[|tag| + 1] == '>' != EmptyTag(tag)[|tag| + 1];
    assert open <= s;
    assert s[|open|..] == after;
    EscapeCDataDecodes(t, close + rest);
    assert close <= close + rest;
    assert (close + rest)[|close|..] == rest;
  }

  /** A text-only element (written short when its text is empty) reads back as its text. */
  lemma LeafDecodes(tag: string, t: string, rest: string)
    ensures ParseLeaf(tag, Serialize(Element(tag, t, [])) + rest) == Some((t, rest))
  {
    LeafShape(tag, t);
    if t == [] {
      EmptyLeafDecodes(tag, rest);
    } else {
      var open, body, close := StartTag(tag), EscapeCData(t), EndTag(tag);
      Assoc(open, body + close, rest);
      Assoc(body, close, rest);
      TextLeafDecodes(tag, t, rest);
    }
  }
}
