/**
 * Character and string helpers shared by the suggestion filter and the
 * markup reader: ASCII lower-casing, substring search, splitting a class
 * attribute into words, and reading up to a stop character.
 */
module Text {

  /** Lower-cases one character; only the ASCII letters A-Z change. */
  function LowerChar(c: char): char
  {
    if 'A' <= c <= 'Z' then (c as int + 32) as char else c
  }

  /** String.prototype.toLowerCase, restricted to ASCII letters. */
  function Lower(s: string): (r: string)
    ensures |r| == |s|
    ensures forall i :: 0 <= i < |s| && 'A' <= s[i] <= 'Z' ==> r[i] as int == s[i] as int + 32
    ensures forall i :: 0 <= i < |s| && !('A' <= s[i] <= 'Z') ==> r[i] == s[i]
  {
    seq(|s|, i requires 0 <= i < |s| => LowerChar(s[i]))
  }

  /** Lower-casing twice is lower-casing once. */
  lemma LowerIdempotent(s: string)
    ensures Lower(Lower(s)) == Lower(s)
  {
  }

  predicate StartsWith(s: string, p: string)
  {
    |p| <= |s| && s[..|p|] == p
  }

  /** String.prototype.includes: `sub` occurs somewhere in `s` (the empty string occurs everywhere). */
  predicate Contains(s: string, sub: string)
    decreases |s|
  {
    StartsWith(s, sub) || (|s| > 0 && Contains(s[1..], sub))
  }

  /** `sub` occurs in `s` starting at index `k`. */
  predicate OccursAt(s: string, sub: string, k: int)
  {
    0 <= k && k + |sub| <= |s| && s[k..k + |sub|] == sub
  }

  /** The recursive search agrees with the positional definition of an occurrence, both ways. */
  lemma {:induction false} ContainsIff(s: string, sub: string)
    ensures Contains(s, sub) <==> exists k :: OccursAt(s, sub, k)
    decreases |s|
  {
    if StartsWith(s, sub) {
      assert OccursAt(s, sub, 0);
    } else if |s| == 0 {
      forall k | OccursAt(s, sub, k)
        ensures false
      {
      }
    } else {
      ContainsIff(s[1..], sub);
      if Contains(s[1..], sub) {
        var k :| OccursAt(s[1..], sub, k);
        assert s[k + 1..k + 1 + |sub|] == s[1..][k..k + |sub|];
        assert OccursAt(s, sub, k + 1);
      }
      forall k | OccursAt(s, sub, k)
        ensures Contains(s, sub)
      {
        assert k != 0;
        assert s[1..][k - 1..k - 1 + |sub|] == s[k..k + |sub|];
        assert OccursAt(s[1..], sub, k - 1);
      }
    }
  }


  /** No character of `s` is in `stop`. */
  predicate Avoids(s: string, stop: set<char>)
  {
    forall i :: 0 <= i < |s| ==> s[i] !in stop
  }

  /**
   * Splits `s` before the first character in `stop`: the first part has none
   * of them and the second part is empty or starts with one.
   */
  function ReadUntil(s: string, stop: set<char>): (r: (string, string))
    ensures r.0 + r.1 == s
    ensures Avoids(r.0, stop)
    ensures r.1 == [] || r.1[0] in stop
  {
    if |s| == 0 then ([], [])
    else if s[0] in stop then ([], s)
    else
      var t := ReadUntil(s[1..], stop);
      ([s[0]] + t.0, t.1)
  }

  /** Reading a stop-free prefix followed by a stop character gives back exactly that prefix. */
  lemma {:induction false} ReadUntilConcat(a: string, b: string, stop: set<char>)
    requires Avoids(a, stop)
    requires |b| > 0 && b[0] in stop
    ensures ReadUntil(a + b, stop) == (a, b)
    decreases |a|
  {
    if |a| == 0 {
      assert a + b == b;
    } else {
      assert (a + b)[1..] == a[1..] + b;
      ReadUntilConcat(a[1..], b, stop);
      assert [a[0]] + a[1..] == a;
    }
  }

  /** The leading run of non-space characters of `s`. */
  function FirstWord(s: string): (w: string)
    ensures |w| <= |s| && s[..|w|] == w
    ensures Avoids(w, {' '})
    ensures |w| == |s| || s[|w|] == ' '
  {
    if |s| == 0 || s[0] == ' ' then [] else [s[0]] + FirstWord(s[1..])
  }

  /** The space-separated words of `s`, as a class attribute is split into a class list. */
  function Words(s: string): seq<string>
    decreases |s|
  {
    if |s| == 0 then []
    else if s[0] == ' ' then Words(s[1..])
    else
      var w := FirstWord(s);
      [w] + Words(s[|w|..])
  }

  /** A space-free string followed by nothing or a space is the first word. */
  lemma {:induction false} FirstWordConcat(w: string, rest: string)
    requires Avoids(w, {' '})
    requires rest == [] || rest[0] == ' '
    ensures FirstWord(w + rest) == w
    decreases |w|
  {
    if |w| == 0 {
      assert w + rest == rest;
    } else {
      assert (w + rest)[1..] == w[1..] + rest;
      FirstWordConcat(w[1..], rest);
      assert [w[0]] + w[1..] == w;
    }
  }

  /** A non-empty space-free word followed by a space and more text is the first word of the list. */
  lemma {:induction false} WordsLeading(w: string, rest: string)
    requires |w| > 0 && Avoids(w, {' '})
    ensures Words(w + " " + rest) == [w] + Words(rest)
  {
    var s := w + " " + rest;
    assert s == w + (" " + rest);
    FirstWordConcat(w, " " + rest);
    assert s[|w|..] == " " + rest;
    assert (" " + rest)[1..] == rest;
  }

  /** A non-empty space-free string is a single word. */
  lemma {:induction false} WordsSingle(w: string)
    requires |w| > 0 && Avoids(w, {' '})
    ensures Words(w) == [w]
  {
    FirstWordConcat(w, []);
    assert w + [] == w;
    assert w[|w|..] == [];
  }

  /** Words written one after another, separated by single spaces. */
  function JoinWords(ws: seq<string>): string
  {
    if |ws| == 0 then ""
    else if |ws| == 1 then ws[0]
    else ws[0] + " " + JoinWords(ws[1..])
  }

  /** Splitting joined words gives them back when each is non-empty and space-free. */
  lemma {:induction false} WordsJoin(ws: seq<string>)
    requires forall i :: 0 <= i < |ws| ==> |ws[i]| > 0 && Avoids(ws[i], {' '})
    ensures Words(JoinWords(ws)) == ws
    decreases |ws|
  {
    if |ws| == 1 {
      WordsSingle(ws[0]);
    } else if |ws| > 1 {
      WordsLeading(ws[0], JoinWords(ws[1..]));
      WordsJoin(ws[1..]);
    }
  }

  /** Joined words avoid every character that none of the words and not the space contain. */
  lemma {:induction false} JoinWordsAvoids(ws: seq<string>, stop: set<char>)
    requires ' ' !in stop
    requires forall i :: 0 <= i < |ws| ==> Avoids(ws[i], stop)
    ensures Avoids(JoinWords(ws), stop)
    decreases |ws|
  {
    if |ws| > 1 {
      JoinWordsAvoids(ws[1..], stop);
      var s := ws[0] + " " + JoinWords(ws[1..]);
      forall i | 0 <= i < |s|
        ensures s[i] !in stop
      {
        if i < |ws[0]| {
          assert s[i] == ws[0][i];
        } else if i > |ws[0]| {
          assert s[i] == JoinWords(ws[1..])[i - |ws[0]| - 1];
        }
      }
    }
  }
}
