/**
 * An abstract flat document: a sequence of inline items, each a character or
 * a variable token. Positions are indices into the sequence.
 */
module Document {
  import opened Wrappers

  datatype Inline = Char(c: char) | Token(id: Option<string>, value: string)

  type Doc = seq<Inline>

  /** The non-breaking space written as `&nbsp;` after an inserted token. */
  const NBSP: char := '\U{00A0}'

  /** Plain text as document characters. */
  function Chars(s: string): (r: Doc)
    ensures |r| == |s|
    ensures forall i :: 0 <= i < |s| ==> r[i] == Char(s[i])
  {
    seq(|s|, i requires 0 <= i < |s| => Char(s[i]))
  }

  /**
   * Replaces the positions `from` up to `to` with `ins`: what lies before
   * `from` and what lay from `to` on are kept, the latter shifted.
   */
  function Replace(doc: Doc, from: nat, to: nat, ins: Doc): (r: Doc)
    requires from <= to <= |doc|
    ensures |r| == |doc| - (to - from) + |ins|
    ensures forall i :: 0 <= i < from ==> r[i] == doc[i]
    ensures forall i :: 0 <= i < |ins| ==> r[from + i] == ins[i]
    ensures forall j :: to <= j < |doc| ==> r[j - to + from + |ins|] == doc[j]
  {
    doc[..from] + ins + doc[to..]
  }

  /**
   * `d` is `doc` with the positions `from` up to `to` replaced by `ins`:
   * the same items before `from`, then `ins`, then the old items from `to` on.
   */
  predicate Replaced(doc: Doc, from: nat, to: nat, ins: Doc, d: Doc)
    requires from <= to <= |doc|
  {
    && |d| == |doc| - (to - from) + |ins|
    && d[..from] == doc[..from]
    && d[from..from + |ins|] == ins
    && d[from + |ins|..] == doc[to..]
  }

  /** `Replace` meets the description, and it is the only document that does. */
  lemma ReplaceIsReplaced(doc: Doc, from: nat, to: nat, ins: Doc, d: Doc)
    requires from <= to <= |doc|
    ensures Replaced(doc, from, to, ins, Replace(doc, from, to, ins))
    ensures Replaced(doc, from, to, ins, d) ==> d == Replace(doc, from, to, ins)
  {
  }

  /** Replacing the inserted items with the removed ones restores the document. */
  lemma ReplaceUndo(doc: Doc, from: nat, to: nat, ins: Doc)
    requires from <= to <= |doc|
    ensures Replace(Replace(doc, from, to, ins), from, from + |ins|, doc[from..to]) == doc
  {
  }

  /** Number of variable tokens in a document. */
  function TokenCount(doc: Doc): nat
  {
    if |doc| == 0 then 0 else (if doc[0].Token? then 1 else 0) + TokenCount(doc[1..])
  }

  /** Token counts add up over concatenation. */
  lemma {:induction false} TokenCountAppend(a: Doc, b: Doc)
    ensures TokenCount(a + b) == TokenCount(a) + TokenCount(b)
    decreases |a|
  {
    if |a| == 0 {
      assert a + b == b;
    } else {
      assert (a + b)[1..] == a[1..] + b;
      TokenCountAppend(a[1..], b);
    }
  }

  /** Plain text holds no tokens. */
  lemma {:induction false} TokenCountChars(s: string)
    ensures TokenCount(Chars(s)) == 0
    decreases |s|
  {
    if |s| > 0 {
      assert Chars(s)[1..] == Chars(s[1..]);
      TokenCountChars(s[1..]);
    }
  }

  /**
   * Token count after a replacement: the tokens of the removed span go, the
   * tokens of the inserted items come.
   */
  lemma ReplaceTokenCount(doc: Doc, from: nat, to: nat, ins: Doc)
    requires from <= to <= |doc|
    ensures TokenCount(Replace(doc, from, to, ins)) + TokenCount(doc[from..to]) == TokenCount(doc) + TokenCount(ins)
  {
    assert doc == doc[..from] + doc[from..to] + doc[to..];
    TokenCountAppend(doc[..from] + doc[from..to], doc[to..]);
    TokenCountAppend(doc[..from], doc[from..to]);
    TokenCountAppend(doc[..from] + ins, doc[to..]);
    TokenCountAppend(doc[..from], ins);
  }
}
