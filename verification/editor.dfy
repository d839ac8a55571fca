/**
 * The editor component's suggestion logic: the `items` filter over the
 * catalog, the highlighted index moved by the arrow keys, the key handler
 * with its plain-text Enter insertion, the open flag of the suggestion
 * panel, and the suggestion `command` that replaces the typed range with a
 * variable token.
 */
module Editor {
  import opened Wrappers
  import opened Text
  import opened Markup
  import opened Catalog
  import opened Document
  import opened VariableExtension

  // ---------------------------------------------------------------------
  // Filtering the catalog by the query typed after the trigger character.
  // ---------------------------------------------------------------------

  /** The entry's lower-cased label contains the lower-cased query. */
  predicate LabelMatches(v: Variable, query: string)
  {
    Contains(Lower(v.labelText), Lower(query))
  }

  /** The `items` callback: the catalog entries whose label matches the query, in catalog order. */
  function Items(catalog: seq<Variable>, query: string): (r: seq<Variable>)
    ensures |r| <= |catalog|
    ensures forall v :: v in r <==> v in catalog && LabelMatches(v, query)
    decreases |catalog|
  {
    if |catalog| == 0 then []
    else
      var last := catalog[|catalog| - 1];
      var init := Items(catalog[..|catalog| - 1], query);
      assert catalog == catalog[..|catalog| - 1] + [last];
      if LabelMatches(last, query) then init + [last] else init
  }

  /**
   * Filtering distributes over concatenation: the matches of `a + b` are the
   * matches of `a` followed by the matches of `b`. With the one-entry case
   * this pins the result down as the matching entries in catalog order.
   */
  lemma {:induction false} ItemsAppend(a: seq<Variable>, b: seq<Variable>, query: string)
    ensures Items(a + b, query) == Items(a, query) + Items(b, query)
    decreases |b|
  {
    if |b| == 0 {
      assert a + b == a;
    } else {
      var b' := b[..|b| - 1];
      assert (a + b)[..|a + b| - 1] == a + b';
      ItemsAppend(a, b', query);
    }
  }

  /**
   * The filter ignores letter case: two queries that lower-case to the same
   * string select the same entries.
   */
  lemma {:induction false} ItemsIgnoresCase(catalog: seq<Variable>, q1: string, q2: string)
    requires Lower(q1) == Lower(q2)
    ensures Items(catalog, q1) == Items(catalog, q2)
    decreases |catalog|
  {
    if |catalog| > 0 {
      ItemsIgnoresCase(catalog[..|catalog| - 1], q1, q2);
    }
  }

  /** Lower-casing the query first does not change the result. */
  lemma ItemsLowerQuery(catalog: seq<Variable>, query: string)
    ensures Items(catalog, Lower(query)) == Items(catalog, query)
  {
    LowerIdempotent(query);
    ItemsIgnoresCase(catalog, Lower(query), query);
  }

  /** One entry is kept exactly when its label matches. */
  lemma ItemsSingle(v: Variable, query: string)
    ensures Items([v], query) == (if LabelMatches(v, query) then [v] else [])
  {
  }

  /** Every label contains the empty query. */
  lemma MatchesEmptyQuery(v: Variable)
    ensures LabelMatches(v, "")
  {
  }

  /** The empty query keeps the whole catalog. */
  lemma {:induction false} ItemsEmptyQuery(catalog: seq<Variable>)
    ensures Items(catalog, "") == catalog
    decreases |catalog|
  {
    if |catalog| > 0 {
      var init := catalog[..|catalog| - 1];
      var last := catalog[|catalog| - 1];
      assert init + [last] == catalog;
      MatchesEmptyQuery(last);
      ItemsEmptyQuery(init);
      ItemsSnoc(init, last, "");
    }
  }

  /** Appending one entry appends it to the result exactly when it matches. */
  lemma ItemsSnoc(c: seq<Variable>, v: Variable, query: string)
    ensures Items(c + [v], query) == Items(c, query) + (if LabelMatches(v, query) then [v] else [])
  {
  }

  /** The filter as the source runs it: one pass over the catalog, keeping matches. */
  method FilterItems(catalog: seq<Variable>, query: string) returns (r: seq<Variable>)
    ensures r == Items(catalog, query)
  {
    r := [];
    var i := 0;
    while i < |catalog|
      invariant 0 <= i <= |catalog|
      invariant r == Items(catalog[..i], query)
    {
      var v := catalog[i];
      assert catalog[..i + 1] == catalog[..i] + [v];
      ItemsSnoc(catalog[..i], v, query);
      if LabelMatches(v, query) {
        r := r + [v];
      }
      i := i + 1;
    }
    assert catalog[..|catalog|] == catalog;
  }

  // ---------------------------------------------------------------------
  // The highlighted index, moved modulo the length of the whole catalog.
  // ---------------------------------------------------------------------

  /** ArrowDown: the next index, wrapping from the last to the first. */
  function NextIndex(i: nat, n: nat): (r: nat)
    requires n > 0
    ensures r < n
    ensures i + 1 < n ==> r == i + 1
    ensures i + 1 == n ==> r == 0
  {
    (i + 1) % n
  }

  /** ArrowUp: the previous index, wrapping from the first to the last. */
  function PrevIndex(i: nat, n: nat): (r: nat)
    requires n > 0
    ensures r < n
    ensures 0 < i <= n ==> r == i - 1
    ensures i == 0 ==> r == n - 1
  {
    (i + n - 1) % n
  }

  /** ArrowUp undoes ArrowDown. */
  lemma DownThenUp(i: nat, n: nat)
    requires i < n
    ensures PrevIndex(NextIndex(i, n), n) == i
  {
  }

  /** ArrowDown undoes ArrowUp. */
  lemma UpThenDown(i: nat, n: nat)
    requires i < n
    ensures NextIndex(PrevIndex(i, n), n) == i
  {
  }

  /** The index after `k` presses of ArrowDown. */
  function PressDown(i: nat, n: nat, k: nat): nat
    requires n > 0
  {
    if k == 0 then i else NextIndex(PressDown(i, n, k - 1), n)
  }

  /** The index after `k` presses of ArrowUp. */
  function PressUp(i: nat, n: nat, k: nat): nat
    requires n > 0
  {
    if k == 0 then i else PrevIndex(PressUp(i, n, k - 1), n)
  }

  /** Presses of ArrowDown compose: `a` presses then `b` presses are `a + b` presses. */
  lemma {:induction false} PressDownSplit(i: nat, n: nat, a: nat, b: nat)
    requires n > 0
    ensures PressDown(i, n, a + b) == PressDown(PressDown(i, n, a), n, b)
  {
    if b > 0 {
      PressDownSplit(i, n, a, b - 1);
    }
  }

  /** Without passing the last entry, `k` presses of ArrowDown add `k`. */
  lemma {:induction false} PressDownBelow(i: nat, n: nat, k: nat)
    requires i + k < n
    ensures PressDown(i, n, k) == i + k
  {
    if k > 0 {
      PressDownBelow(i, n, k - 1);
    }
  }

  /** Presses of ArrowUp compose: `a` presses then `b` presses are `a + b` presses. */
  lemma {:induction false} PressUpSplit(i: nat, n: nat, a: nat, b: nat)
    requires n > 0
    ensures PressUp(i, n, a + b) == PressUp(PressUp(i, n, a), n, b)
  {
    if b > 0 {
      PressUpSplit(i, n, a, b - 1);
    }
  }

  /** Without passing the first entry, `k` presses of ArrowUp subtract `k`. */
  lemma {:induction false} PressUpBelow(i: nat, n: nat, k: nat)
    requires i < n && k <= i
    ensures PressUp(i, n, k) == i - k
  {
    if k > 0 {
      PressUpBelow(i, n, k - 1);
    }
  }

  /** As many ArrowDown presses as catalog entries come back to the start. */
  lemma PressDownCycle(i: nat, n: nat)
    requires i < n
    ensures PressDown(i, n, n) == i
  {
    PressDownBelow(i, n, n - 1 - i);
    PressDownSplit(i, n, n - 1 - i, 1);
    PressDownBelow(0, n, i);
    PressDownSplit(i, n, n - i, i);
  }

  /** As many ArrowUp presses as catalog entries come back to the start. */
  lemma PressUpCycle(i: nat, n: nat)
    requires i < n
    ensures PressUp(i, n, n) == i
  {
    PressUpBelow(i, n, i);
    PressUpSplit(i, n, i, 1);
    PressUpBelow(n - 1, n, n - 1 - i);
    PressUpSplit(i, n, i + 1, n - 1 - i);
  }

  // ---------------------------------------------------------------------
  // The key handler while a suggestion session is active.
  // ---------------------------------------------------------------------

  /** The editor view the key handler may receive: its document and the selection's start. */
  datatype View = View(doc: Doc, from: nat)

  /**
   * What a key press did: whether the handler reported it handled, the
   * highlighted index afterwards, and the document of the transaction it
   * dispatched (None when it dispatched nothing).
   */
  datatype KeyOutcome = KeyOutcome(handled: bool, selectedIndex: nat, dispatched: Option<Doc>)

  /**
   * The catalog index the Enter branch reads. The suggestion renderer is built
   * once, together with the editor, and reads the highlighted index of that
   * first render: the initial state 0. The arrows update the state through a
   * functional updater, which moves the highlight but not this value.
   */
  const CapturedIndex: nat := 0

  /**
   * `onKeyDown`: the arrows move the highlighted index over the whole catalog
   * and report the key handled; Enter inserts the value of the catalog entry
   * at `enterIndex` (the index captured when the renderer was built, not the
   * highlighted one) as plain text at the selection start, without removing
   * the typed trigger text, when that entry exists and a view is present;
   * every other case reports the key not handled.
   */
  function OnKeyDown(catalog: seq<Variable>, selectedIndex: nat, enterIndex: nat, key: string, view: Option<View>): (r: KeyOutcome)
    requires key == "ArrowDown" || key == "ArrowUp" ==> |catalog| > 0
    requires view.Some? ==> view.value.from <= |view.value.doc|
    ensures key == "ArrowDown" || key == "ArrowUp" ==>
              r.handled && r.dispatched == None && r.selectedIndex < |catalog|
    ensures key == "ArrowDown" ==> r.selectedIndex == NextIndex(selectedIndex, |catalog|)
    ensures key == "ArrowUp" ==> r.selectedIndex == PrevIndex(selectedIndex, |catalog|)
    ensures key != "ArrowDown" && key != "ArrowUp" ==> r.selectedIndex == selectedIndex
    ensures key == "Enter" ==> (r.handled <==> enterIndex < |catalog| && view.Some?)
    ensures key == "Enter" && r.handled ==>
              r.dispatched.Some? &&
              Replaced(view.value.doc, view.value.from, view.value.from,
                       Chars(catalog[enterIndex].value), r.dispatched.value)
    ensures !r.handled ==> r.dispatched == None
    ensures key != "ArrowDown" && key != "ArrowUp" && key != "Enter" ==> !r.handled
  {
    if key == "ArrowDown" then
      KeyOutcome(true, NextIndex(selectedIndex, |catalog|), None)
    else if key == "ArrowUp" then
      KeyOutcome(true, PrevIndex(selectedIndex, |catalog|), None)
    else if key == "Enter" && enterIndex < |catalog| && view.Some? then
      var v := view.value;
      var d := Replace(v.doc, v.from, v.from, Chars(catalog[enterIndex].value));
      ReplaceIsReplaced(v.doc, v.from, v.from, Chars(catalog[enterIndex].value), d);
      KeyOutcome(true, selectedIndex, Some(d))
    else
      KeyOutcome(false, selectedIndex, None)
  }

  /**
   * Enter keeps the text typed before the selection (the trigger character
   * and the query): whatever stood before `from` still stands there.
   */
  lemma EnterKeepsTypedText(catalog: seq<Variable>, selectedIndex: nat, enterIndex: nat, view: View, typed: string)
    requires view.from <= |view.doc|
    requires |typed| <= view.from && view.doc[view.from - |typed|..view.from] == Chars(typed)
    requires enterIndex < |catalog|
    ensures var r := OnKeyDown(catalog, selectedIndex, enterIndex, "Enter", Some(view));
            r.handled && r.dispatched.value[view.from - |typed|..view.from] == Chars(typed)
  {
  }

  /** Enter adds no variable token: it inserts characters only. */
  lemma EnterAddsNoToken(catalog: seq<Variable>, selectedIndex: nat, enterIndex: nat, view: View)
    requires view.from <= |view.doc|
    requires enterIndex < |catalog|
    ensures TokenCount(OnKeyDown(catalog, selectedIndex, enterIndex, "Enter", Some(view)).dispatched.value) == TokenCount(view.doc)
  {
    var ins := Chars(catalog[enterIndex].value);
    ReplaceIsReplaced(view.doc, view.from, view.from, ins, OnKeyDown(catalog, selectedIndex, enterIndex, "Enter", Some(view)).dispatched.value);
    ReplaceTokenCount(view.doc, view.from, view.from, ins);
    TokenCountChars(catalog[enterIndex].value);
    assert view.doc[view.from..view.from] == [];
  }

  /** The highlighted index after a series of key presses with no view present. */
  function IndexAfterKeys(catalog: seq<Variable>, i: nat, keys: seq<string>): nat
    requires |catalog| > 0
  {
    if |keys| == 0 then i
    else OnKeyDown(catalog, IndexAfterKeys(catalog, i, keys[..|keys| - 1]), CapturedIndex, keys[|keys| - 1], None).selectedIndex
  }

  /** Whatever keys are pressed, a highlighted index inside the catalog stays inside it. */
  lemma {:induction false} IndexStaysInCatalog(catalog: seq<Variable>, i: nat, keys: seq<string>)
    requires |catalog| > 0 && i < |catalog|
    ensures IndexAfterKeys(catalog, i, keys) < |catalog|
  {
    if |keys| > 0 {
      IndexStaysInCatalog(catalog, i, keys[..|keys| - 1]);
    }
  }

  /**
   * Whatever keys were pressed since the editor was built, from whatever
   * highlighted index, Enter inserts the first catalog entry's value: the
   * highlight moves, the inserted entry does not. With two or more entries,
   * one ArrowDown from index 0 highlights entry 1 while Enter still inserts
   * entry 0.
   */
  lemma EnterIgnoresArrows(catalog: seq<Variable>, i: nat, keys: seq<string>, view: View)
    requires |catalog| > 0
    requires view.from <= |view.doc|
    ensures var r := OnKeyDown(catalog, IndexAfterKeys(catalog, i, keys), CapturedIndex, "Enter", Some(view));
            r.handled && r.selectedIndex == IndexAfterKeys(catalog, i, keys) &&
            r.dispatched == Some(Replace(view.doc, view.from, view.from, Chars(catalog[0].value)))
    ensures |catalog| >= 2 ==> IndexAfterKeys(catalog, 0, ["ArrowDown"]) == 1
  {
  }

  // ---------------------------------------------------------------------
  // The open flag of the suggestion panel.
  // ---------------------------------------------------------------------

  /** The panel's state: whether it is shown and which catalog entry is highlighted. */
  datatype Panel = Panel(open: bool, selectedIndex: nat)

  /**
   * Events that touch the panel: a session starts (with or without a caret
   * rectangle), a session updates, a session exits, a list item is clicked.
   */
  datatype PanelEvent = Start(hasRect: bool) | Update | Exit | ItemClick

  predicate Opens(e: PanelEvent) { e == Start(true) }

  predicate Closes(e: PanelEvent) { e.Exit? || e.ItemClick? }

  /** `onStart` opens the panel when a rectangle is given; `onExit` and a click close it; nothing resets the index. */
  function Step(p: Panel, e: PanelEvent): (q: Panel)
    ensures q.selectedIndex == p.selectedIndex
    ensures q.open <==> Opens(e) || (p.open && !Closes(e))
  {
    match e
    case Start(hasRect) => if hasRect then p.(open := true) else p
    case Update => p
    case Exit => p.(open := false)
    case ItemClick => p.(open := false)
  }

  /**
   * The panel after a series of events: the highlighted index is never
   * reset, and the last event, when it opens or closes the panel, decides
   * the open flag.
   */
  function Run(p: Panel, es: seq<PanelEvent>): (r: Panel)
    ensures r.selectedIndex == p.selectedIndex
    ensures |es| > 0 && Opens(es[|es| - 1]) ==> r.open
    ensures |es| > 0 && Closes(es[|es| - 1]) ==> !r.open
    ensures (forall j :: 0 <= j < |es| ==> !Opens(es[j]) && !Closes(es[j])) ==> r.open == p.open
  {
    if |es| == 0 then p else Step(Run(p, es[..|es| - 1]), es[|es| - 1])
  }

  /** No event after position `k` closes the panel. */
  predicate NoCloseAfter(es: seq<PanelEvent>, k: int)
  {
    forall j :: 0 <= j < |es| && k < j ==> !Closes(es[j])
  }

  /**
   * After any series of events the panel is open exactly when some opening
   * start has no exit or click after it, or it was open and nothing closed it;
   * the highlighted index is the one it started with.
   */
  lemma {:induction false} RunOpen(p: Panel, es: seq<PanelEvent>)
    ensures Run(p, es).selectedIndex == p.selectedIndex
    ensures Run(p, es).open <==>
              (exists k :: 0 <= k < |es| && Opens(es[k]) && NoCloseAfter(es, k)) ||
              (p.open && NoCloseAfter(es, -1))
  {
    if |es| > 0 {
      var init := es[..|es| - 1];
      var e := es[|es| - 1];
      RunOpen(p, init);
      if Opens(e) {
        assert Opens(es[|es| - 1]) && NoCloseAfter(es, |es| - 1);
      } else if Closes(e) {
        assert !NoCloseAfter(es, -1);
        forall k | 0 <= k < |es| && Opens(es[k])
          ensures !NoCloseAfter(es, k)
        {
          assert k < |es| - 1;
        }
      } else {
        forall k | 0 <= k < |init|
          ensures NoCloseAfter(es, k) <==> NoCloseAfter(init, k)
        {
          assert forall j :: k < j < |init| ==> init[j] == es[j];
        }
        assert NoCloseAfter(es, -1) <==> NoCloseAfter(init, -1) by {
          assert forall j :: -1 < j < |init| ==> init[j] == es[j];
        }
        if Run(p, es).open {
          if exists k :: 0 <= k < |init| && Opens(init[k]) && NoCloseAfter(init, k) {
            var k :| 0 <= k < |init| && Opens(init[k]) && NoCloseAfter(init, k);
            assert Opens(es[k]);
          }
        } else {
          forall k | 0 <= k < |es| && Opens(es[k])
            ensures !NoCloseAfter(es, k)
          {
            assert k < |init|;
            assert init[k] == es[k];
          }
        }
      }
    }
  }

  /**
   * A click on a list item: the `insertVariable` markup for that item when an
   * editor exists, and the panel closed either way.
   */
  function OnItemClick(p: Panel, hasEditor: bool, item: Variable): (r: (Panel, Option<string>))
    ensures !r.0.open && r.0.selectedIndex == p.selectedIndex
    ensures r.1.Some? <==> hasEditor
    ensures r.1.Some? ==> r.1.value == InsertVariable(item.id, item.value)
  {
    (Step(p, ItemClick), if hasEditor then Some(InsertVariable(item.id, item.value)) else None)
  }

  // ---------------------------------------------------------------------
  // The suggestion command.
  // ---------------------------------------------------------------------

  /** The typed range the command replaces. */
  datatype Range = Range(from: nat, to: nat)

  /** The text shown inside a command-inserted token: the id in double braces. */
  function FormatId(id: string): (r: string)
    ensures |r| == |id| + 4
    ensures r[..2] == "{{" && r[2..|r| - 2] == id && r[|r| - 2..] == "}}"
  {
    "{{" + id + "}}"
  }

  /** The command's template string, as written in the code. */
  function CommandTemplate(id: string): string
  {
    "<span class=\"mention\" data-id=\"" + id + "\" contenteditable=\"false\">" + FormatId(id) + "</span>&nbsp;"
  }

  /** The attributes written in the command's markup, in order. */
  function CommandAttrs(id: string): seq<Attr>
  {
    [Attr("class", "mention"), Attr("data-id", id), Attr("contenteditable", "false")]
  }

  // Proof helpers. The lemmas from here to CommandMarkupText show that the
  // command's template is the markup form of CommandAttrs. Each merges two
  // short literals or regroups a concatenation, so that no single proof
  // handles long literals. They state nothing about the editor itself.

  lemma ClassAttrText()
    ensures AttrText(Attr("class", "mention")) == " class=\"mention\""
  {
  }

  lemma EditableAttrText()
    ensures AttrText(Attr("contenteditable", "false")) + "" == " contenteditable=\"false\""
  {
  }

  lemma IdAttrText(id: string)
    ensures AttrText(Attr("data-id", id)) == " data-id=\"" + (id + "\"")
  {
  }

  lemma RegroupAttrs(x: string, p: string, id: string, q: string, c: string)
    ensures x + ((p + (id + q)) + c) == (x + p) + (id + (q + c))
  {
  }

  lemma CommandAttrsHead()
    ensures " class=\"mention\"" + " data-id=\"" == " class=\"mention\" data-id=\""
  {
  }

  lemma CommandAttrsTail()
    ensures "\"" + " contenteditable=\"false\"" == "\" contenteditable=\"false\""
  {
  }

  lemma CommandAttrPieces(id: string)
    ensures AttrText(Attr("class", "mention")) + (AttrText(Attr("data-id", id)) + (AttrText(Attr("contenteditable", "false")) + "")) ==
              " class=\"mention\" data-id=\"" + (id + "\" contenteditable=\"false\"")
  {
    ClassAttrText();
    EditableAttrText();
    IdAttrText(id);
    RegroupAttrs(" class=\"mention\"", " data-id=\"", id, "\"", " contenteditable=\"false\"");
    CommandAttrsHead();
    CommandAttrsTail();
  }

  lemma CommandAttrsText(id: string)
    ensures AttrsText(CommandAttrs(id)) ==
              " class=\"mention\" data-id=\"" + (id + "\" contenteditable=\"false\"")
  {
    var attrs := CommandAttrs(id);
    assert attrs[1..] == [attrs[1], attrs[2]];
    assert attrs[1..][1..] == [attrs[2]];
    var a1 := AttrText(attrs[0]);
    var a2 := AttrText(attrs[1]);
    var a3 := AttrText(attrs[2]);
    assert AttrsText([attrs[2]]) == a3 + "";
    assert AttrsText(attrs[1..]) == a2 + AttrsText([attrs[2]]);
    assert AttrsText(attrs) == a1 + (a2 + (a3 + ""));
    CommandAttrPieces(id);
  }

  /** Regrouping a concatenation of seven strings. */
  lemma Regroup(a: string, l: string, x: string, r: string, g: string, f: string, t: string)
    ensures a + (l + (x + r)) + g + f + t == (a + l) + (x + ((r + g) + (f + t)))
  {
  }

  /** Regrouping a left-nested concatenation of five strings to the right. */
  lemma RegroupLeft(h: string, x: string, m: string, f: string, t: string)
    ensures h + x + m + f + t == h + (x + (m + (f + t)))
  {
  }

  lemma CommandHead()
    ensures "<span" + " class=\"mention\" data-id=\"" == "<span class=\"mention\" data-id=\""
  {
  }

  lemma CommandMiddle()
    ensures "\" contenteditable=\"false\"" + ">" == "\" contenteditable=\"false\">"
  {
  }

  lemma CommandElementText(id: string)
    ensures ElementText("span", CommandAttrs(id), FormatId(id)) + "&nbsp;" ==
              "<span" + (" class=\"mention\" data-id=\"" + (id + "\" contenteditable=\"false\"")) + ">" + FormatId(id) + "</span>&nbsp;"
  {
    CommandAttrsText(id);
    assert "</" + "span" + ">" + "&nbsp;" == "</span>&nbsp;";
  }

  /** The command's template is the markup form of its three attributes and text. */
  lemma CommandMarkupText(id: string)
    ensures CommandTemplate(id) == ElementText("span", CommandAttrs(id), FormatId(id)) + "&nbsp;"
  {
    var f := FormatId(id);
    var l := " class=\"mention\" data-id=\"";
    var r := "\" contenteditable=\"false\"";
    CommandElementText(id);
    Regroup("<span", l, id, r, ">", f, "</span>&nbsp;");
    CommandHead();
    CommandMiddle();
    RegroupLeft("<span class=\"mention\" data-id=\"", id, "\" contenteditable=\"false\">", f, "</span>&nbsp;");
  }
  /**
   * The markup the command inserts for a variable id: a `span` with the
   * classes `mention`, a `data-id` holding the id and `contenteditable` off,
   * whose text is the id in double braces, followed by `&nbsp;`.
   */
  function CommandMarkup(id: string): (r: string)
    ensures r == ElementText("span", CommandAttrs(id), FormatId(id)) + "&nbsp;"
  {
    CommandMarkupText(id);
    CommandTemplate(id)
  }


  /** The command's attributes can be written and read back when the id has no `"`. */
  lemma CommandAttrsWritable(id: string)
    requires Avoids(id, {'"'})
    ensures WritableAttrs(CommandAttrs(id))
  {
  }

  /** The braces add no `<` to the id. */
  lemma FormatIdAvoids(id: string)
    requires Avoids(id, {'<'})
    ensures Avoids(FormatId(id), {'<'})
  {
  }

  /**
   * Reading the command's markup gives a `span` with the single class
   * `mention`, `data-id` set to the id, the id in double braces as text, and
   * `&nbsp;` after it; the parse rule recognises that span. Holds for ids
   * without `"` (which would end the attribute) and without `<`.
   */
  lemma CommandMarkupRead(id: string)
    requires Avoids(id, {'"', '<'})
    ensures ReadElement(CommandMarkup(id)) ==
              Some((Element("span", ["mention"], CommandAttrs(id), FormatId(id)), "&nbsp;"))
    ensures ParseRuleMatches(VariableNode, ReadElement(CommandMarkup(id)).value.0)
    ensures Lookup(ReadElement(CommandMarkup(id)).value.0.attrs, "data-id") == Some(id)
  {
    var attrs := CommandAttrs(id);
    CommandAttrsWritable(id);
    FormatIdAvoids(id);
    ReadElementText("span", attrs, FormatId(id), "&nbsp;");
    assert Avoids("mention", {' '});
    WordsSingle("mention");
    VariableParseRule(MakeElement("span", attrs, FormatId(id)));
  }

  /**
   * What the command did: the resulting document and the markup it inserted
   * (None when the id is unknown and it returned early).
   */
  datatype CommandOutcome = CommandOutcome(doc: Doc, markup: Option<string>)

  /**
   * The suggestion `command`: an id not in the catalog changes nothing;
   * otherwise the range is deleted and one token for the variable, showing
   * its id in double braces, is inserted followed by a non-breaking space.
   */
  function SuggestionCommand(catalog: seq<Variable>, doc: Doc, range: Range, id: string): (r: CommandOutcome)
    requires range.from <= range.to <= |doc|
    ensures r.markup.None? <==> forall v :: v in catalog ==> v.id != id
    ensures r.markup.None? ==> r.doc == doc
    ensures r.markup.Some? ==>
              r.markup.value == CommandMarkup(id) &&
              Replaced(doc, range.from, range.to, [Token(Some(id), FormatId(id)), Char(NBSP)], r.doc)
  {
    match Find(catalog, id)
    case None => CommandOutcome(doc, None)
    case Some(variable) =>
      var ins := [Token(Some(variable.id), FormatId(variable.id)), Char(NBSP)];
      var d := Replace(doc, range.from, range.to, ins);
      ReplaceIsReplaced(doc, range.from, range.to, ins, d);
      CommandOutcome(d, Some(CommandMarkup(variable.id)))
  }

  /** The command leaves exactly one more token than the replaced range held, minus those it removed. */
  lemma CommandTokenCount(catalog: seq<Variable>, doc: Doc, range: Range, id: string)
    requires range.from <= range.to <= |doc|
    requires exists v :: v in catalog && v.id == id
    ensures TokenCount(SuggestionCommand(catalog, doc, range, id).doc) + TokenCount(doc[range.from..range.to])
              == TokenCount(doc) + 1
  {
    var ins := [Token(Some(id), FormatId(id)), Char(NBSP)];
    ReplaceIsReplaced(doc, range.from, range.to, ins, SuggestionCommand(catalog, doc, range, id).doc);
    ReplaceTokenCount(doc, range.from, range.to, ins);
    assert ins[1..][1..] == [];
  }

  /**
   * Both insertion markups are `span.mention` elements, so the parse rule
   * recognises both; their texts are the id in double braces and the value,
   * which agree only when the value is exactly that.
   */
  lemma InsertionMarkupsCompared(v: Variable)
    requires Avoids(v.id, {'"', '<'}) && Avoids(v.value, {'<'})
    ensures ReadElement(CommandMarkup(v.id)).Some? && ReadElement(InsertVariable(v.id, v.value)).Some?
    ensures var a := ReadElement(CommandMarkup(v.id)).value.0;
            var b := ReadElement(InsertVariable(v.id, v.value)).value.0;
            ParseRuleMatches(VariableNode, a) && ParseRuleMatches(VariableNode, b) &&
            a.text == FormatId(v.id) && b.text == v.value &&
            (a.text == b.text <==> v.value == FormatId(v.id))
  {
    CommandMarkupRead(v.id);
    InsertVariableMarkup(v.id, v.value);
  }
}
