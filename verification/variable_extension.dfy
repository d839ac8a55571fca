/**
 * The custom inline `variable` node type: its registration (name, group,
 * inline flag), attribute schema with defaults, the tag-and-class parse rule,
 * the render rule, and the markup built by the `insertVariable` command.
 */
module VariableExtension {
  import opened Wrappers
  import opened Text
  import opened Markup

  /** An attribute value as the document engine stores it: null or a string. */
  datatype AttrValue = Null | Str(s: string)

  datatype AttributeSpec = AttributeSpec(name: string, default: AttrValue)

  /** A node-type registration; `parseRules` holds the tag selectors of its parse rules. */
  datatype NodeSpec = NodeSpec(name: string, group: string, inline: bool,
                               attributes: seq<AttributeSpec>, parseRules: seq<string>)

  const VariableNode: NodeSpec :=
    NodeSpec("variable", "inline", true,
             [AttributeSpec("id", Null), AttributeSpec("value", Str(""))],
             ["span.mention"])

  /** The attributes of a variable node: `id` may be absent, `value` is the captured text. */
  datatype VariableAttrs = VariableAttrs(id: Option<string>, value: string)

  /**
   * The value a new node gets for attribute `name`: the given one if any, else
   * the schema default of the first attribute with that name; None when the
   * schema has no such attribute.
   */
  function AttrOf(schema: seq<AttributeSpec>, given: map<string, AttrValue>, name: string): (r: Option<AttrValue>)
    ensures r.None? <==> forall i :: 0 <= i < |schema| ==> schema[i].name != name
    ensures r.Some? && name in given ==> r.value == given[name]
    ensures r.Some? && name !in given ==>
              exists i :: 0 <= i < |schema| && schema[i] == AttributeSpec(name, r.value)
  {
    if |schema| == 0 then None
    else if schema[0].name == name then Some(if name in given then given[name] else schema[0].default)
    else
      var r := AttrOf(schema[1..], given, name);
      if r.Some? && name !in given then
        var i :| 0 <= i < |schema[1..]| && schema[1..][i] == AttributeSpec(name, r.value);
        assert schema[i + 1] == AttributeSpec(name, r.value);
        r
      else r
  }

  /**
   * The registration: an inline node named `variable` in the `inline` group
   * whose `id` defaults to null and `value` to the empty string, and which
   * has no other attribute.
   */
  lemma VariableSchema(name: string)
    ensures VariableNode.name == "variable" && VariableNode.group == "inline" && VariableNode.inline
    ensures AttrOf(VariableNode.attributes, map[], "id") == Some(Null)
    ensures AttrOf(VariableNode.attributes, map[], "value") == Some(Str(""))
    ensures name != "id" && name != "value" ==> AttrOf(VariableNode.attributes, map[], name) == None
  {
  }

  /** A parse-rule selector `tag.class`, split at its first dot; without a dot it names only a tag. */
  datatype Selector = Selector(tag: string, cls: Option<string>)

  function ParseSelector(sel: string): (r: Selector)
  {
    var (tag, rest) := ReadUntil(sel, {'.'});
    Selector(tag, if |rest| > 0 then Some(rest[1..]) else None)
  }

  predicate SelectorMatches(sel: Selector, e: Element)
  {
    e.tag == sel.tag && (sel.cls.Some? ==> sel.cls.value in e.classes)
  }

  /** The element is recognised as a node of type `nodeType` by one of its parse rules. */
  predicate ParseRuleMatches(nodeType: NodeSpec, e: Element)
  {
    exists i :: 0 <= i < |nodeType.parseRules| && SelectorMatches(ParseSelector(nodeType.parseRules[i]), e)
  }

  /** The variable node's parse rule accepts exactly the `span` elements carrying class `mention`. */
  lemma VariableParseRule(e: Element)
    ensures ParseRuleMatches(VariableNode, e) <==> e.tag == "span" && "mention" in e.classes
  {
    assert "span.mention" == "span" + ".mention";
    assert Avoids("span", {'.'});
    ReadUntilConcat("span", ".mention", {'.'});
    assert ParseSelector(VariableNode.parseRules[0]) == Selector("span", Some("mention"));
  }

  /**
   * The render rule: a `span` carrying the rendered attributes, whose only
   * child is the node's `value` text.
   */
  function RenderHTML(node: VariableAttrs, rendered: seq<Attr>): (e: Element)
    ensures e.tag == "span" && e.attrs == rendered && e.text == node.value
  {
    MakeElement("span", rendered, node.value)
  }

  /**
   * Rendering does not add the `mention` class itself: a rendered node is
   * recognised by the parse rule exactly when the rendered attributes bring
   * a `class` attribute listing `mention`. In this program they never do:
   * the extension declares no HTML attributes option and is registered
   * without configuration, and the `mention` class the editor configures
   * belongs to the Mention extension, not to this node.
   */
  lemma RenderReparsed(node: VariableAttrs, rendered: seq<Attr>)
    ensures ParseRuleMatches(VariableNode, RenderHTML(node, rendered)) <==>
              var cls := Lookup(rendered, "class");
              cls.Some? && "mention" in Words(cls.value)
  {
    VariableParseRule(RenderHTML(node, rendered));
  }

  /** The classes the `insertVariable` markup puts on its span, in the order written. */
  const InsertClasses: seq<string> := ["mention", "bg-blue-100", "text-blue-600", "px-2", "py-1", "rounded"]

  /** The `insertVariable` template string, as written in the code. */
  function InsertVariableTemplate(value: string): string
  {
    "<span class=\"" + JoinWords(InsertClasses) + "\">" + value + "</span>&nbsp;"
  }

  /** Each of the six classes is a non-empty word without spaces or double quotes. */
  lemma InsertClassesWellFormed()
    ensures forall i :: 0 <= i < |InsertClasses| ==> |InsertClasses[i]| > 0 && Avoids(InsertClasses[i], {' ', '"'})
  {
  }

  /** The `insertVariable` template is the markup form of its one attribute and the value. */
  lemma InsertVariableText(value: string)
    ensures InsertVariableTemplate(value) ==
              ElementText("span", [Attr("class", JoinWords(InsertClasses))], value) + "&nbsp;"
  {
    var cls := JoinWords(InsertClasses);
    var attrs := [Attr("class", cls)];
    assert AttrsText(attrs) == " " + ("class" + ("=\"" + (cls + "\""))) + "";
    Regroup9("<", "span", AttrsText(attrs), ">", value, "</", "span", ">", "&nbsp;");
    InsertVariableRegroup(cls, value);
  }
  /**
   * The markup the `insertVariable` command inserts: a `span` whose one
   * attribute is the `class` list of InsertClasses and whose text is the
   * value, followed by `&nbsp;`. The variable's id does not appear.
   */
  function InsertVariable(id: string, value: string): (r: string)
    ensures r == ElementText("span", [Attr("class", JoinWords(InsertClasses))], value) + "&nbsp;"
  {
    InsertVariableText(value);
    InsertVariableTemplate(value)
  }


  /** Proof helper: the template's literals split into the pieces of the markup form. */
  lemma InsertVariableRegroup(cls: string, value: string)
    ensures "<span class=\"" + cls + "\">" + value + "</span>&nbsp;" ==
              "<" + ("span" + ((" " + ("class" + ("=\"" + (cls + "\""))) + "") + (">" + (value + ("</" + "span" + ">" + "&nbsp;")))))
  {
  }

  /** The joined class list can be written in a double-quoted attribute and splits back into the six classes. */
  lemma InsertClassesRead()
    ensures Avoids(JoinWords(InsertClasses), {'"'})
    ensures Words(JoinWords(InsertClasses)) == InsertClasses
  {
    InsertClassesWellFormed();
    forall i | 0 <= i < |InsertClasses|
      ensures Avoids(InsertClasses[i], {'"'}) && Avoids(InsertClasses[i], {' '})
    {
      assert Avoids(InsertClasses[i], {' ', '"'});
    }
    JoinWordsAvoids(InsertClasses, {'"'});
    WordsJoin(InsertClasses);
  }

  /**
   * Reading the `insertVariable` markup gives a `span` with the six classes,
   * no attribute but `class` (so no `data-id`), the variable's value as text,
   * and `&nbsp;` after it; the parse rule recognises that span. Holds when the
   * value has no `<`, which would end the text early.
   */
  lemma InsertVariableMarkup(id: string, value: string)
    requires Avoids(value, {'<'})
    ensures ReadElement(InsertVariable(id, value)) ==
              Some((Element("span", InsertClasses, [Attr("class", JoinWords(InsertClasses))], value), "&nbsp;"))
    ensures ParseRuleMatches(VariableNode, ReadElement(InsertVariable(id, value)).value.0)
    ensures Lookup(ReadElement(InsertVariable(id, value)).value.0.attrs, "data-id") == None
  {
    var attrs := [Attr("class", JoinWords(InsertClasses))];
    InsertClassesRead();
    assert WritableAttrs(attrs) by {
      assert Avoids("class", {'='});
    }
    ReadElementText("span", attrs, value, "&nbsp;");
    VariableParseRule(MakeElement("span", attrs, value));
  }
}
