/**
 * The word counter of MarkovWords.py: every whitespace-separated word of the
 * input gets a count in one dict, whose keys keep first-seen order; the
 * final report lists the dict in that order.
 */
module MarkovWords {
  import opened Dict

  /**
   * The separators `str.split()` breaks on: the characters Python's
   * `str.isspace` accepts, namely tab to carriage return, the four ASCII
   * information separators, space, next-line, no-break space, and the
   * Unicode space and line/paragraph separators.
   */
  predicate IsSpace(c: char)
  {
    || c == ' '
    || '\t' <= c <= '\r'
    || '\U{1C}' <= c <= '\U{1F}'
    || c == '\U{85}' || c == '\U{A0}' || c == '\U{1680}'
    || '\U{2000}' <= c <= '\U{200A}'
    || c == '\U{2028}' || c == '\U{2029}' || c == '\U{202F}' || c == '\U{205F}' || c == '\U{3000}'
  }

  /** Python's `"a\x1cb".split()` is two words. */
  lemma SeparatorExample()
    ensures SplitWords("a\U{1C}b") == ["a", "b"]
  {
    var s := "a\U{1C}b";
    assert IsSpace(s[1]);
    assert WordEnd(s, 0) == 1;
    assert s[..1] == "a" && s[1..] == "\U{1C}b";
    assert SplitWords("\U{1C}b") == SplitWords("b") by {
      assert "\U{1C}b"[1..] == "b";
    }
    assert SplitWords("b") == ["b"] by {
      assert WordEnd("b", 0) == 1;
      assert "b"[..1] == "b" && "b"[1..] == "";
    }
  }

  /** A word as `split` yields it: non-empty and free of separators. */
  predicate IsWord(w: string)
  {
    |w| > 0 && forall i :: 0 <= i < |w| ==> !IsSpace(w[i])
  }

  /** End of the word starting at `i`: the first separator at or after it, or the end. */
  function WordEnd(s: string, i: nat): (r: nat)
    requires i <= |s|
    ensures i <= r <= |s|
    ensures forall k :: i <= k < r ==> !IsSpace(s[k])
    ensures r < |s| ==> IsSpace(s[r])
    decreases |s| - i
  {
    if i == |s| || IsSpace(s[i]) then i else WordEnd(s, i + 1)
  }

  /** `line.split()`: the maximal runs of non-separators, left to right. */
  function SplitWords(s: string): (r: seq<string>)
    ensures forall j :: 0 <= j < |r| ==> IsWord(r[j])
    decreases |s|
  {
    if |s| == 0 then []
    else if IsSpace(s[0]) then SplitWords(s[1..])
    else
      var e := WordEnd(s, 0);
      [s[..e]] + SplitWords(s[e..])
  }

  /** Words joined by single spaces (the inverse direction of `SplitWords`). */
  function JoinWords(ws: seq<string>): string
  {
    if |ws| == 0 then "" else if |ws| == 1 then ws[0] else ws[0] + " " + JoinWords(ws[1..])
  }

  lemma {:induction false} WordEndAt(s: string, i: nat, e: nat)
    requires i <= e <= |s|
    requires forall k :: i <= k < e ==> !IsSpace(s[k])
    requires e == |s| || IsSpace(s[e])
    ensures WordEnd(s, i) == e
    decreases e - i
  {
    if i < e {
      WordEndAt(s, i + 1, e);
    }
  }

  lemma WordEndOfWord(w: string, t: string)
    requires IsWord(w)
    requires |t| == 0 || IsSpace(t[0])
    ensures WordEnd(w + t, 0) == |w|
  {
    var s := w + t;
    assert forall k :: 0 <= k < |w| ==> s[k] == w[k];
    if |t| > 0 {
      assert s[|w|] == t[0];
    }
    WordEndAt(s, 0, |w|);
  }

  /** Splitting words joined by spaces gives the words back. */
  lemma {:induction false} SplitJoin(ws: seq<string>)
    requires forall j :: 0 <= j < |ws| ==> IsWord(ws[j])
    ensures SplitWords(JoinWords(ws)) == ws
  {
    if |ws| == 1 {
      var w := ws[0];
      WordEndOfWord(w, "");
      assert w + "" == w;
      assert w[|w|..] == "";
    } else if |ws| > 1 {
      var w := ws[0];
      var rest := JoinWords(ws[1..]);
      var s := w + " " + rest;
      assert JoinWords(ws) == s;
      WordEndOfWord(w, " " + rest);
      assert s == w + (" " + rest);
      assert s[..|w|] == w;
      assert s[|w|..] == " " + rest;
      assert (" " + rest)[1..] == rest;
      SplitJoin(ws[1..]);
      assert SplitWords(s) == [w] + SplitWords(" " + rest);
      assert [w] + ws[1..] == ws;
    }
  }

  /** One more occurrence of `w`: an existing count goes up by one, a new word is appended with 1. */
  function Bump(d: Dict<string, nat>, w: string): Dict<string, nat>
  {
    Put(d, w, GetOr(d, w, 0) + 1)
  }

  /** The counting loop, one word after another. */
  function CountWords(d: Dict<string, nat>, tokens: seq<string>): Dict<string, nat>
  {
    if |tokens| == 0 then d else Bump(CountWords(d, tokens[..|tokens| - 1]), tokens[|tokens| - 1])
  }

  /** The words of all lines, in reading order. */
  function TextWords(lines: seq<string>): seq<string>
  {
    if |lines| == 0 then [] else TextWords(lines[..|lines| - 1]) + SplitWords(lines[|lines| - 1])
  }

  /** `main`'s table: the counts of the words of the whole input, starting from an empty dict. */
  function CountText(lines: seq<string>): Dict<string, nat>
  {
    CountWords([], TextWords(lines))
  }

  /** Every word's count is its count before plus its number of occurrences among the tokens. */
  lemma {:induction false} CountWordsCounts(d: Dict<string, nat>, tokens: seq<string>)
    ensures forall w :: GetOr(CountWords(d, tokens), w, 0) == GetOr(d, w, 0) + multiset(tokens)[w]
  {
    if |tokens| > 0 {
      var init := tokens[..|tokens| - 1];
      var last := tokens[|tokens| - 1];
      CountWordsCounts(d, init);
      assert tokens == init + [last];
      forall w ensures GetOr(CountWords(d, tokens), w, 0) == GetOr(d, w, 0) + multiset(tokens)[w] {
        assert multiset(tokens)[w] == multiset(init)[w] + (if w == last then 1 else 0);
      }
    }
  }

  /** A word is a key afterwards exactly when it was before or occurs among the tokens. */
  lemma {:induction false} CountWordsKeys(d: Dict<string, nat>, tokens: seq<string>)
    ensures forall w :: Contains(CountWords(d, tokens), w) <==> Contains(d, w) || w in tokens
  {
    if |tokens| > 0 {
      var init := tokens[..|tokens| - 1];
      CountWordsKeys(d, init);
      assert tokens == init + [tokens[|tokens| - 1]];
    }
  }

  /** Counting keeps keys distinct and every count positive. */
  lemma {:induction false} CountWordsWellFormed(d: Dict<string, nat>, tokens: seq<string>)
    requires DistinctKeys(d)
    requires forall i :: 0 <= i < |d| ==> d[i].1 >= 1
    ensures DistinctKeys(CountWords(d, tokens))
    ensures forall i :: 0 <= i < |CountWords(d, tokens)| ==> CountWords(d, tokens)[i].1 >= 1
  {
    if |tokens| > 0 {
      var prev := CountWords(d, tokens[..|tokens| - 1]);
      var w := tokens[|tokens| - 1];
      CountWordsWellFormed(d, tokens[..|tokens| - 1]);
      var r := Bump(prev, w);
      forall i | 0 <= i < |r| ensures r[i].1 >= 1 {
        if Contains(prev, w) && i == IndexOf(prev, w) {
        } else if Contains(prev, w) {
          assert r[i] == prev[i];
        } else if i < |prev| {
          assert r[i] == prev[i];
        }
      }
    }
  }

  lemma BumpTotal(d: Dict<string, nat>, w: string)
    ensures Total(Bump(d, w)) == Total(d) + 1
  {
    PutTotal(d, w, GetOr(d, w, 0) + 1);
  }

  /** The reported counts add up to the number of words read. */
  lemma {:induction false} CountWordsTotal(d: Dict<string, nat>, tokens: seq<string>)
    ensures Total(CountWords(d, tokens)) == Total(d) + |tokens|
  {
    if |tokens| > 0 {
      var prev := CountWords(d, tokens[..|tokens| - 1]);
      var w := tokens[|tokens| - 1];
      CountWordsTotal(d, tokens[..|tokens| - 1]);
      BumpTotal(prev, w);
    }
  }

  /** Counting line after line is counting all the words at once. */
  lemma {:induction false} CountWordsConcat(d: Dict<string, nat>, t1: seq<string>, t2: seq<string>)
    ensures CountWords(CountWords(d, t1), t2) == CountWords(d, t1 + t2)
  {
    if |t2| > 0 {
      CountWordsConcat(d, t1, t2[..|t2| - 1]);
      assert (t1 + t2)[..|t1 + t2| - 1] == t1 + t2[..|t2| - 1];
      assert (t1 + t2)[|t1 + t2| - 1] == t2[|t2| - 1];
    } else {
      assert t1 + t2 == t1;
    }
  }

  /**
   * The words of `tokens` not in `seen`, each once, in order of first
   * occurrence: the order in which a dict meets new keys.
   */
  function FirstOccurrences(seen: seq<string>, tokens: seq<string>): seq<string>
  {
    if |tokens| == 0 then []
    else
      var init := tokens[..|tokens| - 1];
      var w := tokens[|tokens| - 1];
      if w in seen || w in init then FirstOccurrences(seen, init) else FirstOccurrences(seen, init) + [w]
  }

  lemma BumpKeys(d: Dict<string, nat>, w: string)
    ensures Keys(Bump(d, w)) == if Contains(d, w) then Keys(d) else Keys(d) + [w]
  {
    if !Contains(d, w) {
      assert Keys(d + [(w, GetOr(d, w, 0) + 1)]) == Keys(d) + [w];
    }
  }

  /** The report order: the old keys, then the new words in the order they were first read. */
  lemma {:induction false} CountWordsOrder(d: Dict<string, nat>, tokens: seq<string>)
    ensures Keys(CountWords(d, tokens)) == Keys(d) + FirstOccurrences(Keys(d), tokens)
  {
    if |tokens| > 0 {
      var init := tokens[..|tokens| - 1];
      var w := tokens[|tokens| - 1];
      var prev := CountWords(d, init);
      CountWordsOrder(d, init);
      CountWordsKeys(d, init);
      ContainsIsKeyMembership(d, w);
      assert Contains(prev, w) <==> w in Keys(d) || w in init;
      BumpKeys(prev, w);
    } else {
      assert Keys(d) + [] == Keys(d);
    }
  }

  /** The table of a text: one key per distinct word, in first-read order, counting its occurrences. */
  lemma CountTextMeaning(lines: seq<string>)
    ensures Keys(CountText(lines)) == FirstOccurrences([], TextWords(lines))
    ensures forall w :: GetOr(CountText(lines), w, 0) == multiset(TextWords(lines))[w]
    ensures Total(CountText(lines)) == |TextWords(lines)|
    ensures DistinctKeys(CountText(lines))
  {
    var tokens := TextWords(lines);
    CountWordsOrder([], tokens);
    assert Keys<string, nat>([]) == [];
    CountWordsCounts([], tokens);
    CountWordsTotal([], tokens);
    CountWordsWellFormed([], tokens);
  }

  /** Reading the lines one at a time gives the table of the whole text. */
  lemma {:induction false} CountTextLineByLine(lines: seq<string>, line: string)
    ensures CountWords(CountText(lines), SplitWords(line)) == CountText(lines + [line])
  {
    CountWordsConcat([], TextWords(lines), SplitWords(line));
    assert (lines + [line])[..|lines + [line]| - 1] == lines;
  }
}
