# Variable tokens in a rich-text editor — a Dafny model

This project models the variable-suggestion logic of a TipTap-based editor
component and the custom inline `variable` node type it registers. Typing `{`
opens a suggestion session. The catalog of variables is filtered by the typed
query. The arrow keys move a highlighted index. Enter and a click on a list
item insert something into the document. The library's suggestion `command`
is configured too, but nothing in the component calls it (see below).

What is modelled, as pure functions over immutable data:

- **Suggestion list controller** (`Editor`): the `items` filter, which keeps
  catalog entries whose lower-cased label contains the lower-cased query. The
  highlighted index moves modulo the length of the *whole* catalog. The
  `onKeyDown` handler reports the arrows as handled, commits on Enter, and
  reports every other key as not handled. The panel's open flag is driven by
  `onStart`, `onExit` and the list-item click.
- **Two insertion paths** over an abstract flat document `seq<Inline>`, where
  `Inline = Char(c) | Token(id, value)`. Positions are indices into that
  sequence.
  - Enter inserts a catalog entry's `value` as plain characters at the
    selection start. It deletes nothing and adds no token. The entry is the
    one at the index captured when the editor was built (index 0), not the
    highlighted one.
  - The suggestion `command` looks the id up in the catalog. An unknown id
    changes nothing. A known id deletes the typed range and inserts one token
    whose text is `{{id}}`, followed by a non-breaking space.
  - The markup strings both paths build are modelled as pure string
    functions. A small reader for the `<tag a="v">text</tag>` form
    (`Markup.ReadElement`) is the reference they are checked against. It
    keeps text and attribute values as written and does not decode character
    references such as `&amp;` or `&lt;`, as an HTML parser would.
- **Variable node type** (`VariableExtension`): the registration (name
  `variable`, group `inline`, inline), the attribute defaults, the
  `span.mention` parse rule as a tag-and-class selector over an element
  `{tag, classes, attrs, text}`, the render rule, and the `insertVariable`
  markup.

The catalog (`VARIABLES`, defined in `src/types/variables`, which is not part
of this model) is a parameter `seq<Variable>` everywhere.

Behaviour of the code worth noting:

- The highlighted index ranges over the full catalog, not the filtered list.
  The list the component renders is also the full catalog. An empty catalog
  is not guarded: the arrows take the index modulo `VARIABLES.length`, which
  is `NaN` for an empty catalog (see `Editor.OnKeyDown` under "Left out").
- Enter inserts the variable's plain `value` text and leaves the typed
  trigger text in place (`EnterKeepsTypedText`, `EnterAddsNoToken`). It does
  not insert a token. Only the suggestion command replaces the range with a
  token (`CommandTokenCount`).
- The command's token text is `{{id}}`, not the variable's `value`.
- The render rule does not add the `mention` class, and in this program the
  rendered attributes never bring it. The extension declares no HTML
  attributes option and is registered without configuration. The `mention`
  class in the editor's setup configures the Mention extension, not this
  node. A rendered node is recognised by the parse rule again only if the
  rendered attributes bring that class (`RenderReparsed`). The code does not provide a render/parse
  round trip.
- Opening the panel does not reset the highlighted index (`Step`, `RunOpen`).
- Enter does not follow the highlight. The Enter branch reads `selectedIndex`
  from the render in which `useEditor` built the suggestion renderer, where it
  is the initial 0. The arrows change the state through a functional updater,
  so the highlight moves but the value Enter reads does not
  (`EnterIgnoresArrows`). With two or more entries, ArrowDown then Enter
  highlights entry 1 but inserts entry 0's value.
- Nothing in the component calls the suggestion `command`. The render
  callbacks never invoke it: Enter dispatches its own `insertText`, and a click
  calls `insertVariable`. `SuggestionCommand` models what the command would do
  if the library invoked it.

## Model

| member | source | states |
|---|---|---|
| `Editor.Items` | src/components/Editor.tsx:30-33 | The result is no longer than the catalog, and an entry is in it exactly when it is in the catalog and its lower-cased label contains the lower-cased query |
| `Editor.ItemsAppend` | src/components/Editor.tsx:30-33 | Filtering `a + b` gives the matches of `a` followed by the matches of `b`, so catalog order is preserved |
| `Editor.ItemsSingle` | src/components/Editor.tsx:30-33 | A one-entry catalog is kept exactly when its label matches; with `ItemsAppend` this fixes the result as the matching entries in order |
| `Editor.ItemsEmptyQuery` | src/components/Editor.tsx:30-33 | The empty query returns the whole catalog |
| `Editor.FilterItems` | src/components/Editor.tsx:30-33 | One pass over the catalog that keeps matching entries computes the same list as `Items` |
| `Text.Lower` | src/components/Editor.tsx:32 | Lower-casing keeps the length, turns each ASCII capital into its small letter and leaves every other character as it is |
| `Editor.ItemsIgnoresCase` | src/components/Editor.tsx:30-33 | Two queries that lower-case to the same string select the same entries |
| `Editor.ItemsLowerQuery` | src/components/Editor.tsx:30-33 | Lower-casing the query first does not change the result |
| `Text.ContainsIff` | src/components/Editor.tsx:32 | The substring test holds exactly when the query occurs at some index of the label |
| `Editor.NextIndex` | src/components/Editor.tsx:50-53 | ArrowDown gives an index below the catalog length: the next index, or 0 after the last entry |
| `Editor.PrevIndex` | src/components/Editor.tsx:54-57 | ArrowUp gives an index below the catalog length: the previous index, or the last entry's index after index 0 |
| `Editor.DownThenUp` | src/components/Editor.tsx:50-57 | ArrowUp after ArrowDown returns to the starting index |
| `Editor.UpThenDown` | src/components/Editor.tsx:50-57 | ArrowDown after ArrowUp returns to the starting index |
| `Editor.PressDownBelow` | src/components/Editor.tsx:50-53 | Short of the last entry, `k` ArrowDown presses add `k` to the index |
| `Editor.PressUpBelow` | src/components/Editor.tsx:54-57 | Short of the first entry, `k` ArrowUp presses subtract `k` from the index |
| `Editor.PressDownCycle` | src/components/Editor.tsx:50-53 | As many ArrowDown presses as catalog entries return to the start index |
| `Editor.PressUpCycle` | src/components/Editor.tsx:54-57 | As many ArrowUp presses as catalog entries return to the start index |
| `Editor.OnKeyDown` | src/components/Editor.tsx:49-70 | Arrows are handled, dispatch nothing and keep the highlighted index in range. Enter reads its own index, separate from the highlight. It is handled exactly when that index is inside the catalog and a view exists. Then the dispatched document has that entry's value inserted as characters at the selection start. Other keys are not handled and change nothing |
| `Editor.EnterKeepsTypedText` | src/components/Editor.tsx:58-67 | Text typed before the selection start, such as the trigger and the query, is still there after Enter |
| `Editor.EnterAddsNoToken` | src/components/Editor.tsx:58-67 | Enter leaves the number of variable tokens unchanged |
| `Editor.EnterIgnoresArrows` | src/components/Editor.tsx:49-67 | After any key presses since the editor was built, from any highlighted index, Enter inserts entry 0's value while the highlight sits wherever the arrows moved it. One ArrowDown from index 0 highlights entry 1 |
| `Editor.IndexStaysInCatalog` | src/components/Editor.tsx:49-57 | From an index inside the catalog, any series of keys keeps the index inside it |
| `Editor.Step` | src/components/Editor.tsx:36-71 | A start with a caret rectangle opens the panel. Exit closes it. A start without a rectangle and an update leave it as it was. No event changes the highlighted index |
| `Editor.Run` | src/components/Editor.tsx:36-71 | Over a series of events the highlighted index is never reset. An opening start as the last event leaves the panel open, and an exit or click as the last event leaves it closed. Events that neither open nor close it keep the flag |
| `Editor.RunOpen` | src/components/Editor.tsx:36-71 | After any series of events, the panel is open exactly when some opening start has no exit or click after it, or when it was open and nothing closed it. The index is unchanged |
| `Editor.OnItemClick` | src/components/Editor.tsx:157-160 | A list-item click always closes the panel and keeps the index. It issues the `insertVariable` markup for that item exactly when an editor exists |
| `Catalog.FindIndex` | src/components/Editor.tsx:75 | Returns the index of the first entry with the id, or None when no entry has it |
| `Catalog.Find` | src/components/Editor.tsx:75 | Returns None exactly when no catalog entry has the id; otherwise the first entry with that id |
| `Editor.SuggestionCommand` | src/components/Editor.tsx:74-88 | An id not in the catalog leaves the document unchanged and inserts nothing. Otherwise the result is the old items before `from`, then one token with that id and text `{{id}}`, then a non-breaking space, then the old items from `to` on. The issued markup is the command's template |
| `Editor.CommandTokenCount` | src/components/Editor.tsx:84-87 | For a known id, the command removes the tokens of the typed range and adds exactly one |
| `Editor.FormatId` | src/components/Editor.tsx:79 | The token text is the id between `{{` and `}}`, four characters longer than the id |
| `Editor.CommandMarkup` | src/components/Editor.tsx:86 | The command's template string equals the markup form of a `span` with attributes `class="mention"`, `data-id`, `contenteditable="false"` and text `{{id}}`, followed by `&nbsp;` |
| `Editor.CommandMarkupRead` | src/components/Editor.tsx:79-86 | For ids without `"` or `<`, reading the command's markup with `Markup.ReadElement` yields a `span` with the single class `mention`, `data-id` equal to the id, and text `{{id}}`, followed by `&nbsp;`. The parse rule accepts that span |
| `Editor.InsertionMarkupsCompared` | src/components/Editor.tsx:86 | For ids without `"` or `<` and values without `<`, both insertion markups, as `Markup.ReadElement` reads them, are accepted by the parse rule. Their texts are `{{id}}` and the value, and they agree only when the value is exactly `{{id}}` |
| `Document.Replace` | src/components/Editor.tsx:84-87 | Deleting a range and inserting items keeps every item before the range, places the inserted items at `from`, and shifts every item after the range |
| `Document.ReplaceIsReplaced` | src/components/Editor.tsx:84-87 | The replacement meets the before/inserted/after description, and no other document does |
| `VariableExtension.VariableSchema` | src/extensions/VariableExtension.ts:16-32 | The node is named `variable`, is in the `inline` group and is inline. Without given attributes, `id` is null and `value` is the empty string. It has no other attribute |
| `VariableExtension.AttrOf` | src/extensions/VariableExtension.ts:23-32 | An attribute the schema declares gets its given value, else its declared default. An undeclared attribute gets nothing |
| `VariableExtension.VariableParseRule` | src/extensions/VariableExtension.ts:34-36 | The parse rule accepts an element exactly when its tag is `span` and its class list contains `mention` |
| `VariableExtension.RenderHTML` | src/extensions/VariableExtension.ts:38-40 | Rendering produces a `span` carrying the rendered attributes, whose text content is the node's `value` |
| `VariableExtension.RenderReparsed` | src/extensions/VariableExtension.ts:34-40 | A rendered node is accepted by the parse rule exactly when the rendered attributes carry a `class` listing `mention` |
| `VariableExtension.InsertVariable` | src/extensions/VariableExtension.ts:49 | The `insertVariable` template equals the markup form of a `span` with one `class` attribute and the value as text, followed by `&nbsp;`. The id does not appear |
| `VariableExtension.InsertVariableMarkup` | src/extensions/VariableExtension.ts:44-50 | For values without `<`, reading the `insertVariable` markup with `Markup.ReadElement` yields a `span` with classes `mention bg-blue-100 text-blue-600 px-2 py-1 rounded`, no `data-id`, and the value as text, followed by `&nbsp;`. The parse rule accepts that span |

## Left out

- React state plumbing (`useState`, `useEffect`, JSX list rendering) is reduced to the panel's open flag and highlighted index. `src/App.tsx` is only a page shell.
- Popup positioning in `onStart`/`onUpdate` uses floating-point DOMRect arithmetic. Only whether a rectangle exists is modelled.
- Saving and loading through `sessionStorage`, `JSON.stringify`/`JSON.parse`, `alert` and `console.log` are I/O or library serialisation.
- The document-level click listener (src/components/Editor.tsx:100-113) depends on DOM events and on the library's selection semantics.
- The library's internals are left out: trigger detection, session exit, `insertContent` HTML parsing, `mergeAttributes`, the default attribute-to-HTML mapping, `chain().focus().run()` and transaction atomicity. So the click path is modelled only up to the markup it issues.
- The contents of `VARIABLES` are not part of this model; the catalog is a parameter.
- `Editor.Items`: `toLowerCase` is modelled for ASCII letters only (`Text.Lower`). Full Unicode case mapping is not modelled.
- `Text.Lower`: maps ASCII capitals only, and keeps the length. The JavaScript `toLowerCase` applies the full Unicode mapping, which can change the length (U+0130 becomes `i` followed by U+0307). So `|r| == |s|` holds for the model only.
- `Editor.OnKeyDown`: requires a non-empty catalog for the arrow keys. On an empty catalog the code throws nothing: `% 0` yields `NaN`, the arrow branches still report the key handled, and the highlight becomes `NaN`. An index that is not a number is not modelled.
- `Editor.InsertionMarkupsCompared`: stated only for ids without `"` or `<` and values without `<`. These are the inputs for which `Editor.CommandMarkupRead` and `VariableExtension.InsertVariableMarkup` hold. The texts it compares are the ones `Markup.ReadElement` reads, which does not decode character references. An id or value containing `&` (such as `x&lt;y`) gives the parse rule a different text in an HTML parser.
- `VariableExtension.VariableParseRule`: the class list is split on the space character only, not on every HTML whitespace character.
- `VariableExtension.RenderHTML`: the text child is taken to be the node's `value`. The code reads it from the rendered `value` attribute, which the library's default mapping derives from the node. The merged attribute list is a parameter.
- `Editor.CommandMarkupRead`: stated only for ids without `"` or `<`. The code interpolates the id without escaping, and such ids produce broken markup. The `data-id` and text it states are as `Markup.ReadElement` reads them, without decoding character references. For an id containing `&` (such as `a&amp;b`), an HTML parser's `data-id` and text differ.
- `VariableExtension.InsertVariableMarkup`: stated only for values without `<`, for the same reason. The text it states is as `Markup.ReadElement` reads it, without decoding character references. For a value containing `&` (such as `x&lt;y`), an HTML parser's text differs.
- `Editor.SuggestionCommand`: the Token records the id and the text written in the markup. It does not model the attributes of the node the library builds. The library's default attribute parsing reads HTML attributes named `id` and `value`, and the markup carries neither. That parsing is library behaviour and is not modelled.
- Document positions are indices into a flat sequence of inline items, not positions in a nested document tree.
