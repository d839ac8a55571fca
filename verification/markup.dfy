/**
 * Elements and the inline markup form the editor inserts: an opening tag with
 * double-quoted attributes, plain text, and the matching closing tag. The
 * reader here is the reference against which the markup strings built by the
 * insertion paths are checked.
 */
module Markup {
  import opened Wrappers
  import opened Text

  datatype Attr = Attr(name: string, value: string)

  /** An element as a selector sees it: tag, class list, attributes and text content. */
  datatype Element = Element(tag: string, classes: seq<string>, attrs: seq<Attr>, text: string)

  /** The value of the first attribute called `name`, if any. */
  function Lookup(attrs: seq<Attr>, name: string): (r: Option<string>)
    ensures r.None? <==> forall i :: 0 <= i < |attrs| ==> attrs[i].name != name
    ensures r.Some? ==> exists i :: 0 <= i < |attrs| && attrs[i] == Attr(name, r.value)
  {
    if |attrs| == 0 then None
    else if attrs[0].name == name then Some(attrs[0].value)
    else
      var r := Lookup(attrs[1..], name);
      if r.Some? then
        assert attrs[1..][0] == attrs[1];
        r
      else r
  }

  /** Builds an element from its tag, attributes and text; the class list comes from the `class` attribute. */
  function MakeElement(tag: string, attrs: seq<Attr>, text: string): Element
  {
    var cls := Lookup(attrs, "class");
    Element(tag, if cls.Some? then Words(cls.value) else [], attrs, text)
  }

  /** One attribute of an opening tag, written ` name="value"`. */
  function AttrText(a: Attr): string
  {
    " " + (a.name + ("=\"" + (a.value + "\"")))
  }

  /** The attributes of an opening tag, in order. */
  function AttrsText(attrs: seq<Attr>): string
  {
    if |attrs| == 0 then "" else AttrText(attrs[0]) + AttrsText(attrs[1..])
  }

  /** `<tag attrs>text</tag>`. */
  function ElementText(tag: string, attrs: seq<Attr>, text: string): string
  {
    "<" + tag + AttrsText(attrs) + ">" + text + "</" + tag + ">"
  }

  /** Reads ` name="value"` attributes until the next character is not a space. */
  function ReadAttrs(s: string): (r: Option<(seq<Attr>, string)>)
    ensures r.Some? ==> |r.value.1| <= |s|
    decreases |s|
  {
    if |s| > 0 && s[0] == ' ' then
      var (name, r1) := ReadUntil(s[1..], {'='});
      if |r1| >= 2 && r1[1] == '"' then
        var (value, r2) := ReadUntil(r1[2..], {'"'});
        if |r2| > 0 then
          match ReadAttrs(r2[1..])
          case None => None
          case Some((more, rest)) => Some(([Attr(name, value)] + more, rest))
        else None
      else None
    else Some(([], s))
  }

  /**
   * Reads one element `<tag attrs>text</tag>` from the front of `s` and
   * returns it with the text that follows, or None when `s` does not start
   * with such an element.
   */
  function ReadElement(s: string): (r: Option<(Element, string)>)
    ensures r.Some? ==> |r.value.1| < |s|
  {
    if |s| == 0 || s[0] != '<' then None
    else
      var (tag, r1) := ReadUntil(s[1..], {' ', '>'});
      if |tag| == 0 then None
      else
        match ReadAttrs(r1)
        case None => None
        case Some((attrs, r2)) => ReadContent(tag, attrs, r2)
  }

  /** Reads `>text</tag>` after the attributes of an opening tag. */
  function ReadContent(tag: string, attrs: seq<Attr>, s: string): (r: Option<(Element, string)>)
    ensures r.Some? ==> |r.value.1| < |s|
  {
    if |s| == 0 || s[0] != '>' then None
    else
      var (text, r3) := ReadUntil(s[1..], {'<'});
      var close := "</" + tag + ">";
      if StartsWith(r3, close) then Some((MakeElement(tag, attrs, text), r3[|close|..]))
      else None
  }

  /** An attribute that can be written inside a double-quoted opening tag and read back. */
  predicate WritableAttr(a: Attr)
  {
    Avoids(a.name, {'='}) && Avoids(a.value, {'"'})
  }

  predicate WritableAttrs(attrs: seq<Attr>)
  {
    forall i :: 0 <= i < |attrs| ==> WritableAttr(attrs[i])
  }

  /** Reading one written attribute takes exactly its text off the front. */
  lemma {:induction false} ReadAttrsCons(a: Attr, more: string)
    requires WritableAttr(a)
    ensures ReadAttrs(AttrText(a) + more) ==
      match ReadAttrs(more)
      case None => None
      case Some((m, rest)) => Some(([a] + m, rest))
  {
    var s := AttrText(a) + more;
    var r2 := "\"" + more;
    var r1 := "=\"" + (a.value + r2);
    assert s == " " + (a.name + r1);
    assert s[0] == ' ';
    assert s[1..] == a.name + r1;
    ReadUntilConcat(a.name, r1, {'='});
    assert r1[1] == '"';
    assert r1[2..] == a.value + r2;
    ReadUntilConcat(a.value, r2, {'"'});
    assert r2[1..] == more;
  }

  /** Reading written attributes gives them back, with the text after them untouched. */
  lemma {:induction false} ReadAttrsText(attrs: seq<Attr>, rest: string)
    requires WritableAttrs(attrs)
    requires |rest| > 0 && rest[0] != ' '
    ensures ReadAttrs(AttrsText(attrs) + rest) == Some((attrs, rest))
    decreases |attrs|
  {
    if |attrs| == 0 {
      assert AttrsText(attrs) + rest == rest;
    } else {
      var more := AttrsText(attrs[1..]) + rest;
      assert AttrsText(attrs) + rest == AttrText(attrs[0]) + more;
      assert WritableAttr(attrs[0]);
      ReadAttrsCons(attrs[0], more);
      assert WritableAttrs(attrs[1..]) by {
        forall i | 0 <= i < |attrs[1..]|
          ensures WritableAttr(attrs[1..][i])
        {
          assert attrs[1..][i] == attrs[i + 1];
        }
      }
      ReadAttrsText(attrs[1..], rest);
      assert [attrs[0]] + attrs[1..] == attrs;
    }
  }

  /** Reading `>text</tag>` gives the element and the rest when the text has no `<`. */
  lemma {:induction false} ReadContentText(tag: string, attrs: seq<Attr>, text: string, tail: string)
    requires Avoids(text, {'<'})
    ensures ReadContent(tag, attrs, ">" + (text + ("</" + tag + ">" + tail))) == Some((MakeElement(tag, attrs, text), tail))
  {
    var close := "</" + tag + ">";
    var afterText := close + tail;
    var s := ">" + (text + afterText);
    assert s[1..] == text + afterText;
    ReadUntilConcat(text, afterText, {'<'});
    assert afterText[..|close|] == close;
    assert afterText[|close|..] == tail;
  }

  /** Proof helper: regrouping a left-nested concatenation of nine strings. */
  lemma Regroup9(a: string, b: string, c: string, d: string, e: string, f: string, g: string, h: string, i: string)
    ensures a + b + c + d + e + f + g + h + i == a + (b + (c + (d + (e + (f + g + h + i)))))
  {
  }

  /**
   * Round trip of the markup form: reading `<tag attrs>text</tag>` followed by
   * anything gives back the element built from those parts and the rest.
   */
  lemma {:induction false} ReadElementText(tag: string, attrs: seq<Attr>, text: string, tail: string)
    requires |tag| > 0 && Avoids(tag, {' ', '>'})
    requires WritableAttrs(attrs)
    requires Avoids(text, {'<'})
    ensures ReadElement(ElementText(tag, attrs, text) + tail) == Some((MakeElement(tag, attrs, text), tail))
  {
    var afterAttrs := ">" + (text + ("</" + tag + ">" + tail));
    var s := ElementText(tag, attrs, text) + tail;
    Regroup9("<", tag, AttrsText(attrs), ">", text, "</", tag, ">", tail);
    assert s[1..] == tag + (AttrsText(attrs) + afterAttrs);
    if |attrs| > 0 {
      assert (AttrsText(attrs) + afterAttrs)[0] == ' ';
    } else {
      assert AttrsText(attrs) + afterAttrs == afterAttrs;
    }
    ReadUntilConcat(tag, AttrsText(attrs) + afterAttrs, {' ', '>'});
    ReadAttrsText(attrs, afterAttrs);
    ReadContentText(tag, attrs, text, tail);
  }
}
