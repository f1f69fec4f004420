/**
 The bracket-grouping tokenizer of logic expressions: a flat token list is cut
 into top-level words, each a single non-bracket token or a whole `[ ... ]`
 span (nested spans included).
 */
module Grouping {

  type Token = string
  type Word = seq<Token>

  const Open: Token := "["
  const Close: Token := "]"

  /** Net nesting of a token list: opening brackets minus closing brackets. */
  function Depth(s: seq<Token>): int
  {
    (multiset(s)[Open] as int) - multiset(s)[Close]
  }

  /** No prefix closes more brackets than it opens, and the whole list closes all it opens. */
  predicate Balanced(s: seq<Token>)
  {
    Depth(s) == 0 && forall j :: 0 <= j <= |s| ==> Depth(s[..j]) >= 0
  }

  /** No `[` is immediately followed by `]`: no group has an empty interior. */
  predicate NoEmptyGroup(s: seq<Token>)
  {
    forall i :: 0 <= i < |s| - 1 ==> !(s[i] == Open && s[i + 1] == Close)
  }

  predicate IsAtom(w: Word)
  {
    |w| == 1 && w[0] != Open && w[0] != Close
  }

  /** A span opened by `[`, closed by its matching `]`, balanced in between. */
  predicate IsGroup(w: Word)
  {
    2 <= |w| && w[0] == Open && w[|w| - 1] == Close && Balanced(w[1..|w| - 1])
  }

  predicate IsWord(w: Word)
  {
    IsAtom(w) || IsGroup(w)
  }

  predicate AllWords(ws: seq<Word>)
  {
    forall k :: 0 <= k < |ws| ==> IsWord(ws[k])
  }

  function Concat(ws: seq<Word>): seq<Token>
  {
    if ws == [] then [] else ws[0] + Concat(ws[1..])
  }

  /**
   The scanning loop of GetLogicWords. `depth` is the nesting counter (an
   unsigned counter in the source: wrap-around and unbounded integers agree on
   the only test made, `depth == 0`), `buf` the word being built, `words` the
   words emitted so far. A buffer still open at the end is dropped.
   */
  function Scan(ts: seq<Token>, i: nat, depth: int, buf: Word, words: seq<Word>): seq<Word>
    requires i <= |ts|
    decreases |ts| - i
  {
    if i == |ts| then words
    else if ts[i] == Open then Scan(ts, i + 1, depth + 1, buf + [ts[i]], words)
    else if ts[i] == Close then
      if depth - 1 == 0 then Scan(ts, i + 1, 0, [], words + [buf + [ts[i]]])
      else Scan(ts, i + 1, depth - 1, buf + [ts[i]], words)
    else if depth == 0 then Scan(ts, i + 1, 0, [], words + [buf + [ts[i]]])
    else Scan(ts, i + 1, depth, buf + [ts[i]], words)
  }

  /** GetLogicWords: on balanced input the words are a partition of the tokens into atoms and groups. */
  function LogicWords(ts: seq<Token>): (ws: seq<Word>)
    ensures Balanced(ts) ==> Concat(ws) == ts && AllWords(ws)
    ensures Balanced(ts) && NoEmptyGroup(ts) ==> forall k :: 0 <= k < |ws| ==> NoEmptyGroup(ws[k])
  {
    ScanFromStart(ts);
    Scan(ts, 0, 0, [], [])
  }

  lemma ScanFromStart(ts: seq<Token>)
    ensures Balanced(ts) ==> Concat(Scan(ts, 0, 0, [], [])) == ts && AllWords(Scan(ts, 0, 0, [], []))
    ensures Balanced(ts) && NoEmptyGroup(ts) ==>
              forall k :: 0 <= k < |Scan(ts, 0, 0, [], [])| ==> NoEmptyGroup(Scan(ts, 0, 0, [], [])[k])
  {
    if Balanced(ts) {
      assert ts[..0] == [];
      ScanPartitions(ts, 0, 0, [], []);
      if NoEmptyGroup(ts) {
        NoEmptyGroupSplits(Scan(ts, 0, 0, [], []));
      }
    }
  }

  // ---------------------------------------------------------------------------
  // Depth arithmetic

  lemma DepthConcat(a: seq<Token>, b: seq<Token>)
    ensures Depth(a + b) == Depth(a) + Depth(b)
  {
  }

  lemma {:induction false} ConcatAppend(ws: seq<Word>, w: Word)
    ensures Concat(ws + [w]) == Concat(ws) + w
    decreases |ws|
  {
    if ws == [] {
      assert [] + [w] == [w];
    } else {
      assert (ws + [w])[1..] == ws[1..] + [w];
      ConcatAppend(ws[1..], w);
    }
  }

  // ---------------------------------------------------------------------------
  // Direction 1: the words of a balanced list concatenate back to it.

  /** An unfinished group: opened by `[`, still open after each of its tokens, at nesting `d`. */
  predicate OpenGroup(buf: Word, d: int)
  {
    0 < |buf| && buf[0] == Open && Depth(buf) == d
    && forall j :: 1 <= j <= |buf| ==> Depth(buf[..j]) >= 1
  }

  /** The loop invariant of the scan. */
  predicate ScanInvariant(ts: seq<Token>, i: nat, depth: int, buf: Word, words: seq<Word>)
  {
    && i <= |ts|
    && depth == Depth(ts[..i])
    && Concat(words) + buf == ts[..i]
    && AllWords(words)
    && (depth == 0 ==> buf == [])
    && (depth != 0 ==> OpenGroup(buf, depth))
  }

  /** Closing an open group at nesting 1 yields a group word. */
  lemma ClosedGroupIsWord(buf: Word)
    requires OpenGroup(buf, 1)
    ensures IsGroup(buf + [Close])
  {
    var w := buf + [Close];
    var inner := buf[1..];
    assert w[1..|w| - 1] == inner;
    assert buf == [buf[0]] + inner;
    DepthConcat([buf[0]], inner);
    forall j | 0 <= j <= |inner|
      ensures Depth(inner[..j]) >= 0
    {
      assert buf[..j + 1] == [buf[0]] + inner[..j];
      DepthConcat([buf[0]], inner[..j]);
    }
  }

  /** Appending one token keeps a group open when the nesting after it is still positive. */
  lemma ExtendOpenGroup(buf: Word, d: int, t: Token, d': int)
    requires OpenGroup(buf, d)
    requires d' == d + Depth([t]) && d' >= 1
    ensures OpenGroup(buf + [t], d')
  {
    var b := buf + [t];
    DepthConcat(buf, [t]);
    forall j | 1 <= j <= |b|
      ensures Depth(b[..j]) >= 1
    {
      if j <= |buf| {
        assert b[..j] == buf[..j];
      } else {
        assert b[..j] == b;
      }
    }
  }

  lemma ScanStepOpen(ts: seq<Token>, i: nat, depth: int, buf: Word, words: seq<Word>)
    requires Balanced(ts)
    requires ScanInvariant(ts, i, depth, buf, words)
    requires i < |ts| && ts[i] == Open
    ensures ScanInvariant(ts, i + 1, depth + 1, buf + [ts[i]], words)
  {
    var t := ts[i];
    assert ts[..i + 1] == ts[..i] + [t];
    DepthConcat(ts[..i], [t]);
    var b := buf + [t];
    if depth == 0 {
      assert b == [Open];
      assert b[..1] == b;
    } else {
      ExtendOpenGroup(buf, depth, t, depth + 1);
    }
  }

  lemma ScanStepClose(ts: seq<Token>, i: nat, depth: int, buf: Word, words: seq<Word>)
    requires Balanced(ts)
    requires ScanInvariant(ts, i, depth, buf, words)
    requires i < |ts| && ts[i] == Close
    ensures depth - 1 == 0 ==> ScanInvariant(ts, i + 1, 0, [], words + [buf + [ts[i]]])
    ensures depth - 1 != 0 ==> ScanInvariant(ts, i + 1, depth - 1, buf + [ts[i]], words)
  {
    var t := ts[i];
    assert ts[..i + 1] == ts[..i] + [t];
    DepthConcat(ts[..i], [t]);
    assert Depth(ts[..i + 1]) >= 0;
    var b := buf + [t];
    if depth - 1 == 0 {
      ClosedGroupIsWord(buf);
      ConcatAppend(words, b);
      assert Concat(words + [b]) + [] == ts[..i + 1];
    } else {
      ExtendOpenGroup(buf, depth, t, depth - 1);
    }
  }

  lemma ScanStepOther(ts: seq<Token>, i: nat, depth: int, buf: Word, words: seq<Word>)
    requires Balanced(ts)
    requires ScanInvariant(ts, i, depth, buf, words)
    requires i < |ts| && ts[i] != Open && ts[i] != Close
    ensures depth == 0 ==> ScanInvariant(ts, i + 1, 0, [], words + [buf + [ts[i]]])
    ensures depth != 0 ==> ScanInvariant(ts, i + 1, depth, buf + [ts[i]], words)
  {
    var t := ts[i];
    assert ts[..i + 1] == ts[..i] + [t];
    DepthConcat(ts[..i], [t]);
    var b := buf + [t];
    if depth == 0 {
      assert b == [t];
      ConcatAppend(words, b);
      assert Concat(words + [b]) + [] == ts[..i + 1];
    } else {
      ExtendOpenGroup(buf, depth, t, depth);
    }
  }

  lemma {:induction false} ScanPartitions(ts: seq<Token>, i: nat, depth: int, buf: Word, words: seq<Word>)
    requires Balanced(ts)
    requires ScanInvariant(ts, i, depth, buf, words)
    ensures Concat(Scan(ts, i, depth, buf, words)) == ts
    ensures AllWords(Scan(ts, i, depth, buf, words))
    decreases |ts| - i
  {
    if i == |ts| {
      assert ts[..i] == ts;
    } else {
      var t := ts[i];
      var b := buf + [t];
      var depth', buf', words';
      if t == Open {
        ScanStepOpen(ts, i, depth, buf, words);
        depth', buf', words' := depth + 1, b, words;
      } else if t == Close && depth - 1 == 0 {
        ScanStepClose(ts, i, depth, buf, words);
        depth', buf', words' := 0, [], words + [b];
      } else if t == Close {
        ScanStepClose(ts, i, depth, buf, words);
        depth', buf', words' := depth - 1, b, words;
      } else if depth == 0 {
        ScanStepOther(ts, i, depth, buf, words);
        depth', buf', words' := 0, [], words + [b];
      } else {
        ScanStepOther(ts, i, depth, buf, words);
        depth', buf', words' := depth, b, words;
      }
      assert Scan(ts, i, depth, buf, words) == Scan(ts, i + 1, depth', buf', words');
      ScanPartitions(ts, i + 1, depth', buf', words');
    }
  }

  lemma NoEmptyGroupOfConcat(a: seq<Token>, b: seq<Token>)
    requires NoEmptyGroup(a + b)
    ensures NoEmptyGroup(a) && NoEmptyGroup(b)
  {
    forall i | 0 <= i < |a| - 1
      ensures !(a[i] == Open && a[i + 1] == Close)
    {
      assert (a + b)[i] == a[i] && (a + b)[i + 1] == a[i + 1];
    }
    forall i | 0 <= i < |b| - 1
      ensures !(b[i] == Open && b[i + 1] == Close)
    {
      assert (a + b)[|a| + i] == b[i] && (a + b)[|a| + i + 1] == b[i + 1];
    }
  }

  lemma {:induction false} NoEmptyGroupSplits(ws: seq<Word>)
    requires NoEmptyGroup(Concat(ws))
    ensures forall k :: 0 <= k < |ws| ==> NoEmptyGroup(ws[k])
    decreases |ws|
  {
    if ws != [] {
      NoEmptyGroupOfConcat(ws[0], Concat(ws[1..]));
      NoEmptyGroupSplits(ws[1..]);
      forall k | 0 <= k < |ws|
        ensures NoEmptyGroup(ws[k])
      {
        if k > 0 {
          assert ws[k] == ws[1..][k - 1];
        }
      }
    }
  }

  // ---------------------------------------------------------------------------
  // Direction 2: grouping a concatenation of words gives back those words.

  lemma GroupPrefixIsOpen(w: Word, k: nat)
    requires IsGroup(w)
    requires 1 <= k < |w|
    ensures Depth(w[..k]) >= 1
    ensures Depth(w) == 0
  {
    var inner := w[1..|w| - 1];
    assert w[..k] == [w[0]] + inner[..k - 1];
    DepthConcat([w[0]], inner[..k - 1]);
    assert w == [w[0]] + inner + [w[|w| - 1]];
    DepthConcat([w[0]], inner);
    DepthConcat([w[0]] + inner, [w[|w| - 1]]);
  }

  /** Inside a group, one step of the scan only extends the buffer and moves the counter. */
  lemma ScanInside(ts: seq<Token>, i: nat, d: int, buf: Word, words: seq<Word>, d': int)
    requires i < |ts| && d != 0 && d' != 0 && d' == d + Depth([ts[i]])
    ensures Scan(ts, i, d, buf, words) == Scan(ts, i + 1, d', buf + [ts[i]], words)
  {
  }

  /** A `]` that brings the counter to zero emits the buffer as a word. */
  lemma ScanCloses(ts: seq<Token>, i: nat, buf: Word, words: seq<Word>)
    requires i < |ts| && ts[i] == Close
    ensures Scan(ts, i, 1, buf, words) == Scan(ts, i + 1, 0, [], words + [buf + [Close]])
  {
  }

  lemma {:induction false} ScanThroughGroup(ts: seq<Token>, start: nat, k: nat, words: seq<Word>, w: Word)
    requires IsGroup(w)
    requires start + |w| <= |ts| && ts[start..start + |w|] == w
    requires 1 <= k < |w|
    ensures Scan(ts, start + k, Depth(w[..k]), w[..k], words) == Scan(ts, start + |w|, 0, [], words + [w])
    decreases |w| - k
  {
    var t := ts[start + k];
    assert w[..k + 1] == w[..k] + [t];
    DepthConcat(w[..k], [t]);
    GroupPrefixIsOpen(w, k);
    if k == |w| - 1 {
      assert w[..k + 1] == w;
      ScanCloses(ts, start + k, w[..k], words);
    } else {
      GroupPrefixIsOpen(w, k + 1);
      ScanInside(ts, start + k, Depth(w[..k]), w[..k], words, Depth(w[..k + 1]));
      ScanThroughGroup(ts, start, k + 1, words, w);
    }
  }

  lemma ScanOneWord(ts: seq<Token>, start: nat, words: seq<Word>, w: Word)
    requires IsWord(w)
    requires start + |w| <= |ts| && ts[start..start + |w|] == w
    ensures Scan(ts, start, 0, [], words) == Scan(ts, start + |w|, 0, [], words + [w])
  {
    assert ts[start] == w[0];
    if IsAtom(w) {
      assert [] + [ts[start]] == w;
    } else {
      assert w[..1] == [Open];
      assert [] + [ts[start]] == w[..1];
      ScanThroughGroup(ts, start, 1, words, w);
    }
  }

  lemma {:induction false} ScanConcat(ts: seq<Token>, start: nat, words: seq<Word>, ws: seq<Word>)
    requires AllWords(ws)
    requires start <= |ts| && ts[start..] == Concat(ws)
    ensures Scan(ts, start, 0, [], words) == words + ws
    decreases |ws|
  {
    if ws == [] {
      assert |ts[start..]| == 0;
    } else {
      var w := ws[0];
      assert ts[start..] == w + Concat(ws[1..]);
      assert ts[start..start + |w|] == w;
      ScanOneWord(ts, start, words, w);
      assert ts[start + |w|..] == Concat(ws[1..]);
      ScanConcat(ts, start + |w|, words + [w], ws[1..]);
      assert words + [w] + ws[1..] == words + ws;
    }
  }

  /** Grouping is the inverse of concatenation: any list of words is recovered from its tokens. */
  lemma LogicWordsOfConcat(ws: seq<Word>)
    requires AllWords(ws)
    ensures LogicWords(Concat(ws)) == ws
  {
    var ts := Concat(ws);
    assert ts[0..] == ts;
    ScanConcat(ts, 0, [], ws);
  }
}
