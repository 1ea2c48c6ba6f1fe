/** The "FRAGRANCE Ingredients" accordion titles: on a wide window the
    whitespace after FRAGRANCE becomes a `<br>`, on a narrow one the break
    is meant to turn back into a space. */
module LineBreaks {
  import opened Js

  const Word := "FRAGRANCE"
  const Broken := "FRAGRANCE<br>"
  const Joined := "FRAGRANCE "
  const Heading := "FRAGRANCE Ingredients"

  /** `window.innerWidth >= 750` is a desktop. */
  const Breakpoint := 750

  /** The regular expression `FRAGRANCE(\s+)` matches at the front. */
  predicate RewritesAt(s: string) {
    StartsWith(s, Word) && |s| > |Word| && IsSpace(s[|Word|])
  }

  /** `inner.replace(/FRAGRANCE(\s+)/g, 'FRAGRANCE<br>')`: each FRAGRANCE
      followed by whitespace has the whole whitespace run replaced. */
  function Break(s: string): (r: string)
    ensures !Contains(s, Word) ==> r == s
    decreases |s|
  {
    if RewritesAt(s) then Broken + Break(TrimStart(s[|Word|..]))
    else if |s| == 0 then s
    else
      assert [s[0]] + s[1..] == s;
      [s[0]] + Break(s[1..])
  }

  /** The desktop rewrite either changes nothing or leaves a break. */
  lemma {:induction false} BreakLeavesMark(s: string)
    ensures Break(s) == s || Contains(Break(s), Broken)
    decreases |s|
  {
    if RewritesAt(s) {
      assert StartsWith(Broken + Break(TrimStart(s[|Word|..])), Broken);
    } else if |s| > 0 {
      BreakLeavesMark(s[1..]);
      ContainsAfter(s[0], Break(s[1..]), Broken);
      assert [s[0]] + s[1..] == s;
    }
  }

  /** `inner.replace(/FRAGRANCE<br>/g, 'FRAGRANCE ')`. */
  function Join(s: string): (r: string)
    ensures !Contains(s, Broken) ==> r == s
  {
    ReplaceAll(s, Broken, Joined)
  }

  /** An occurrence in the tail is an occurrence. */
  lemma ContainsAfter(c: char, t: string, needle: string)
    ensures Contains(t, needle) ==> Contains([c] + t, needle)
  {
    assert ([c] + t)[1..] == t;
  }

  /** A prefix none of whose characters starts the needle adds no
      occurrence. */
  lemma {:induction false} NoStartPrefix(p: string, x: string, needle: string)
    requires |needle| > 0 && !Contains(x, needle)
    requires forall k :: 0 <= k < |p| ==> p[k] != needle[0]
    ensures !Contains(p + x, needle)
    decreases |p|
  {
    if |p| > 0 {
      NoStartPrefix(p[1..], x, needle);
      assert (p + x)[1..] == p[1..] + x;
      assert (p + x)[0] == p[0];
    } else {
      assert p + x == x;
    }
  }

  /** `Join` over a break at the front, and over any other first
      character. */
  lemma JoinHead(t: string)
    ensures |t| == 0 ==> ReplaceAll(t, Broken, Joined) == []
    ensures StartsWith(t, Broken) ==>
              ReplaceAll(t, Broken, Joined) == Joined + ReplaceAll(t[|Broken|..], Broken, Joined)
    ensures |t| > 0 && !StartsWith(t, Broken) ==>
              ReplaceAll(t, Broken, Joined) == [t[0]] + ReplaceAll(t[1..], Broken, Joined)
    ensures StartsWith(t, Broken) ==> |ReplaceAll(t, Broken, Joined)| > 0 && ReplaceAll(t, Broken, Joined)[0] == 'F'
  {
  }

  /** A prefix's first character is the string's first character. */
  lemma FirstOfPrefix(r: string, q: string)
    ensures StartsWith(r, q) && |q| > 0 ==> |r| > 0 && r[0] == q[0]
  {
    if StartsWith(r, q) && |q| > 0 {
      assert r[..|q|][0] == r[0];
    }
  }

  /** `[c] + x` starts with a needle exactly when `c` is its first
      character and `x` starts with the rest. */
  lemma ConsPrefix(c: char, x: string, q: string)
    requires |q| > 0
    ensures StartsWith([c] + x, q) <==> c == q[0] && StartsWith(x, q[1..])
  {
    if |x| >= |q| - 1 {
      var y := x[..|q| - 1];
      assert ([c] + x)[..|q|] == [c] + y;
      assert ([c] + y)[0] == c && ([c] + y)[1..] == y;
      if c == q[0] && y == q[1..] {
        assert q == [q[0]] + q[1..];
      }
    }
  }

  /** What `Join` puts at the front without an `F` came from its input. */
  lemma {:induction false} JoinPrefix(t: string, q: string)
    requires forall k :: 0 <= k < |q| ==> q[k] != 'F'
    ensures StartsWith(ReplaceAll(t, Broken, Joined), q) ==> StartsWith(t, q)
    decreases |t|
  {
    JoinHead(t);
    FirstOfPrefix(ReplaceAll(t, Broken, Joined), q);
    if |q| == 0 {
      assert t[..0] == q;
    } else if |t| > 0 && !StartsWith(t, Broken) {
      var rest := ReplaceAll(t[1..], Broken, Joined);
      ConsPrefix(t[0], rest, q);
      JoinPrefix(t[1..], q[1..]);
      ConsPrefix(t[0], t[1..], q);
      assert [t[0]] + t[1..] == t;
    }
  }

  /** `FRAGRANCE<br>` after its `F`: a text with no further `F`. */
  const BrokenTail := "RAGRANCE<br>"

  lemma BrokenSplits()
    ensures Broken == ['F'] + BrokenTail
    ensures forall k :: 0 <= k < |BrokenTail| ==> BrokenTail[k] != 'F'
  {
  }

  /** A first character kept in front of `x` starts a new
      `FRAGRANCE<br>` only if `x` starts with the rest of one, which `x`
      inherits from `s[1..]`. */
  lemma KeptCharGeneric(s: string, x: string)
    requires |s| > 0 && !StartsWith(s, Broken)
    requires StartsWith(x, BrokenTail) ==> StartsWith(s[1..], BrokenTail)
    ensures !StartsWith([s[0]] + x, Broken)
  {
    BrokenSplits();
    ConsPrefix(s[0], x, Broken);
    ConsPrefix(s[0], s[1..], Broken);
    assert [s[0]] + s[1..] == s;
  }

  /** The replacement text starts no new `FRAGRANCE<br>`. */
  lemma JoinedNoBreak(x: string)
    requires !Contains(x, Broken)
    ensures !Contains(Joined + x, Broken)
  {
    NoStartPrefix("RAGRANCE ", x, Broken);
    assert (Joined + x)[1..] == "RAGRANCE " + x;
    assert (Joined + x)[9] == ' ';
    assert !StartsWith(Joined + x, Broken);
  }

  /** A first character `Join` keeps does not start a new
      `FRAGRANCE<br>`. */
  lemma KeptCharStartsNoJoinedBreak(s: string)
    requires |s| > 0 && !StartsWith(s, Broken)
    ensures !StartsWith([s[0]] + ReplaceAll(s[1..], Broken, Joined), Broken)
  {
    BrokenSplits();
    JoinPrefix(s[1..], BrokenTail);
    KeptCharGeneric(s, ReplaceAll(s[1..], Broken, Joined));
  }

  /** After the mobile rewrite no `FRAGRANCE<br>` is left: the replacement
      cannot start a new one, and no occurrence can straddle it. */
  lemma {:induction false} JoinLeavesNoBreak(s: string)
    ensures !Contains(ReplaceAll(s, Broken, Joined), Broken)
    decreases |s|
  {
    if |s| == 0 {
    } else if StartsWith(s, Broken) {
      var x := ReplaceAll(s[|Broken|..], Broken, Joined);
      assert ReplaceAll(s, Broken, Joined) == Joined + x;
      JoinLeavesNoBreak(s[|Broken|..]);
      JoinedNoBreak(x);
    } else {
      var x := ReplaceAll(s[1..], Broken, Joined);
      assert ReplaceAll(s, Broken, Joined) == [s[0]] + x;
      JoinLeavesNoBreak(s[1..]);
      assert ([s[0]] + x)[1..] == x;
      KeptCharStartsNoJoinedBreak(s);
    }
  }

  /** `Break` of nothing is nothing, a rewrite at the front starts with
      `F`, and any other first character is kept. */
  lemma BreakHead(t: string)
    ensures |t| == 0 ==> Break(t) == []
    ensures RewritesAt(t) ==> |Break(t)| > 0 && Break(t)[0] == 'F'
    ensures |t| > 0 && !RewritesAt(t) ==> Break(t) == [t[0]] + Break(t[1..])
    ensures |t| > 0 && t[0] != 'F' ==> !RewritesAt(t)
  {
    if RewritesAt(t) {
      assert Break(t) == Broken + Break(TrimStart(t[|Word|..]));
    }
    if |t| > 0 && t[0] != 'F' && |Word| <= |t| {
      assert t[..|Word|][0] == t[0];
    }
  }

  /** What `Break` puts at the front without an `F` came from its input. */
  lemma {:induction false} BreakPrefix(t: string, q: string)
    requires forall k :: 0 <= k < |q| ==> q[k] != 'F'
    ensures StartsWith(Break(t), q) ==> StartsWith(t, q)
    decreases |t|
  {
    BreakHead(t);
    FirstOfPrefix(Break(t), q);
    if |q| == 0 {
      assert t[..0] == q;
    } else if |t| > 0 && !RewritesAt(t) {
      var rest := Break(t[1..]);
      ConsPrefix(t[0], rest, q);
      BreakPrefix(t[1..], q[1..]);
      ConsPrefix(t[0], t[1..], q);
      assert [t[0]] + t[1..] == t;
    }
  }

  /** Every FRAGRANCE followed by whitespace is followed by exactly one
      plain space and then by something other than whitespace. */
  predicate SingleSpaced(s: string)
    decreases |s|
  {
    |s| == 0 ||
    (&& (RewritesAt(s) ==>
          s[|Word|] == ' ' && (|s| == |Word| + 1 || !IsSpace(s[|Word| + 1])))
     && SingleSpaced(s[1..]))
  }

  lemma {:induction false} SuffixKeeps(s: string, k: nat)
    requires k <= |s| && SingleSpaced(s) && !Contains(s, Broken)
    ensures SingleSpaced(s[k..]) && !Contains(s[k..], Broken)
    decreases k
  {
    if k > 0 {
      SuffixKeeps(s[1..], k - 1);
      assert s[1..][k - 1..] == s[k..];
    }
  }

  /** In single-spaced markup the whitespace run after FRAGRANCE is one
      character long. */
  lemma SingleSpaceRun(s: string)
    requires SingleSpaced(s) && RewritesAt(s)
    ensures s[|Word|] == ' ' && TrimStart(s[|Word|..]) == s[|Word| + 1..]
  {
    var t := s[|Word| + 1..];
    assert s[|Word|..][1..] == t;
    assert TrimStart(t) == t;
  }

  /** The round trip at a FRAGRANCE and its single space, given it for
      the rest. */
  lemma UndoAtWord(s: string)
    requires SingleSpaced(s) && RewritesAt(s)
    requires Join(Break(s[|Word| + 1..])) == s[|Word| + 1..]
    ensures Join(Break(s)) == s
  {
    var t := s[|Word| + 1..];
    SingleSpaceRun(s);
    BreakAtFront(s);
    var b := Break(t);
    assert StartsWith(Broken + b, Broken) && (Broken + b)[|Broken|..] == b;
    JoinHead(Broken + b);
    assert s[..|Word| + 1] == Joined;
    assert s == s[..|Word| + 1] + t;
  }

  /** A kept first character does not start a new `FRAGRANCE<br>`. */
  lemma KeptCharStartsNoBreak(s: string)
    requires |s| > 0 && !StartsWith(s, Broken)
    ensures !StartsWith([s[0]] + Break(s[1..]), Broken)
  {
    BrokenSplits();
    BreakPrefix(s[1..], BrokenTail);
    KeptCharGeneric(s, Break(s[1..]));
  }

  /** The round trip at any other first character, given it for the
      rest. */
  lemma UndoElsewhere(s: string, b: string)
    requires |s| > 0 && !StartsWith([s[0]] + b, Broken)
    requires ReplaceAll(b, Broken, Joined) == s[1..]
    ensures ReplaceAll([s[0]] + b, Broken, Joined) == s
  {
    JoinKeepsChar(s[0], b);
    assert [s[0]] + s[1..] == s;
  }

  /** `Join` keeps a first character that starts no break. */
  lemma JoinKeepsChar(c: char, b: string)
    requires !StartsWith([c] + b, Broken)
    ensures ReplaceAll([c] + b, Broken, Joined) == [c] + ReplaceAll(b, Broken, Joined)
  {
    var t := [c] + b;
    assert t[0] == c && t[1..] == b;
    JoinHead(t);
  }

  /** The mobile rewrite undoes the desktop one on single-spaced markup
      that had no break to begin with. */
  lemma {:induction false} JoinUndoesBreak(s: string)
    requires SingleSpaced(s) && !Contains(s, Broken)
    ensures Join(Break(s)) == s
    decreases |s|
  {
    if RewritesAt(s) {
      SuffixKeeps(s, |Word| + 1);
      JoinUndoesBreak(s[|Word| + 1..]);
      UndoAtWord(s);
    } else if |s| > 0 {
      SuffixKeeps(s, 1);
      JoinUndoesBreak(s[1..]);
      BreakHead(s);
      KeptCharStartsNoBreak(s);
      UndoElsewhere(s, Break(s[1..]));
    }
  }

  // ---------------------------------------------------------------------
  // handleFragranceLineBreaks, as written

  /** `title.textContent.trim().includes('FRAGRANCE Ingredients')`. */
  predicate Gate(inner: string) {
    Contains(Trim(StripTags(inner)), Heading)
  }

  /** The desktop rewrite: skipped when a break is already there. */
  function Desktop(inner: string): (r: string)
    ensures r == inner || Contains(r, Broken)
    ensures Contains(inner, Broken) ==> r == inner
  {
    BreakLeavesMark(inner);
    if Contains(inner, Broken) then inner else Break(inner)
  }

  /** One title's markup after `handleFragranceLineBreaks` at a window
      width: titles whose text lacks the heading are never touched. */
  function HandleTitle(inner: string, width: int): (r: string)
    ensures !Gate(inner) ==> r == inner
    ensures Gate(inner) && width >= Breakpoint ==> r == Desktop(inner)
    ensures Gate(inner) && width < Breakpoint ==> !Contains(r, Broken)
  {
    JoinLeavesNoBreak(inner);
    if !Gate(inner) then inner
    else if width >= Breakpoint then Desktop(inner)
    else Join(inner)
  }

  /** Every `.accordion__title.inline-richtext` on the page, on load and
      after each (debounced) resize. */
  function HandleTitles(titles: seq<string>, width: int): (r: seq<string>)
    ensures |r| == |titles|
    ensures forall i :: 0 <= i < |titles| && !Gate(titles[i]) ==> r[i] == titles[i]
    ensures forall i :: 0 <= i < |titles| ==> r[i] == HandleTitle(titles[i], width)
  {
    seq(|titles|, i requires 0 <= i < |titles| => HandleTitle(titles[i], width))
  }

  /** Resizing within the desktop range changes nothing further. */
  lemma DesktopIdempotent(titles: seq<string>, width: int)
    requires width >= Breakpoint
    ensures HandleTitles(HandleTitles(titles, width), width) == HandleTitles(titles, width)
  {
  }

  /** The text of markup without `<` is the markup. */
  lemma {:induction false} StripPlain(p: string, q: string)
    requires forall k :: 0 <= k < |p| ==> p[k] != '<'
    ensures StripTags(p + q) == p + StripTags(q)
    decreases |p|
  {
    if |p| > 0 {
      assert (p + q)[0] == p[0] && (p + q)[1..] == p[1..] + q;
      StripPlain(p[1..], q);
    } else {
      assert p + q == q;
    }
  }

  /** Markup without an `F` has nothing for the desktop rewrite. */
  lemma {:induction false} BreakWithoutF(t: string)
    requires forall k :: 0 <= k < |t| ==> t[k] != 'F'
    ensures Break(t) == t
    decreases |t|
  {
    if |t| > 0 {
      BreakHead(t);
      BreakWithoutF(t[1..]);
      assert [t[0]] + t[1..] == t;
    }
  }

  lemma {:induction false} ContainsNeedsRoom(s: string, needle: string)
    requires Contains(s, needle)
    ensures |needle| <= |s|
    decreases |s|
  {
    if !StartsWith(s, needle) {
      ContainsNeedsRoom(s[1..], needle);
    }
  }

  /** A string lacking one of the needle's characters does not contain it. */
  lemma {:induction false} NoCharNoContains(s: string, needle: string, j: nat)
    requires j < |needle| && forall k :: 0 <= k < |s| ==> s[k] != needle[j]
    ensures !Contains(s, needle)
    decreases |s|
  {
    if |s| > 0 {
      NoCharNoContains(s[1..], needle, j);
      assert !StartsWith(s, needle) by {
        if |needle| <= |s| {
          assert s[..|needle|][j] == s[j];
        }
      }
    }
  }

  /** Text that starts and ends with a non-space character is its own trim. */
  lemma TrimPlain(s: string)
    requires |s| > 0 && !IsSpace(s[0]) && !IsSpace(s[|s| - 1])
    ensures Trim(s) == s
  {
    assert TrimStart(s) == s;
  }

  /** The desktop rewrite at a FRAGRANCE followed by whitespace. */
  lemma BreakAtFront(s: string)
    requires RewritesAt(s)
    ensures Break(s) == Broken + Break(TrimStart(s[|Word|..]))
  {
  }

  /** A title word after the heading's space: no `F`, no tag, and no
      whitespace at either end. */
  predicate PlainTail(tail: string) {
    && |tail| > 0 && !IsSpace(tail[0]) && !IsSpace(tail[|tail| - 1])
    && (forall k :: 0 <= k < |tail| ==> tail[k] != 'F' && tail[k] != '<')
  }

  lemma SpacedNoTag(tail: string)
    requires PlainTail(tail)
    ensures forall k :: 0 <= k < |Word + " " + tail| ==> (Word + " " + tail)[k] != '<'
  {
    var s := Word + " " + tail;
    forall k | 0 <= k < |s| ensures s[k] != '<' {
      if k >= |Word| + 1 {
        assert s[k] == tail[k - |Word| - 1];
      }
    }
  }

  /** The title `FRAGRANCE <tail>` holds no break. */
  lemma SpacedUnbroken(tail: string)
    requires PlainTail(tail)
    ensures !Contains(Word + " " + tail, Broken)
  {
    SpacedNoTag(tail);
    assert Broken[9] == '<';
    NoCharNoContains(Word + " " + tail, Broken, 9);
  }

  /** The text of `FRAGRANCE <tail>` is itself, trimmed. */
  lemma SpacedText(tail: string)
    requires PlainTail(tail)
    ensures Trim(StripTags(Word + " " + tail)) == Word + " " + tail
  {
    var s := Word + " " + tail;
    SpacedNoTag(tail);
    StripPlain(s, []);
    assert s + [] == s;
    TrimPlain(s);
  }

  /** The title `FRAGRANCE <tail>` passes the gate when the tail starts
      with "Ingredients". */
  lemma SpacedGate(tail: string)
    requires PlainTail(tail) && StartsWith(tail, "Ingredients")
    ensures Gate(Word + " " + tail)
  {
    var s := Word + " " + tail;
    SpacedText(tail);
    assert s[..|Heading|] == Word + " " + tail[..11];
    assert StartsWith(s, Heading);
  }

  /** The desktop rewrite turns `FRAGRANCE <tail>` into
      `FRAGRANCE<br><tail>`. */
  lemma SpacedBreak(tail: string)
    requires PlainTail(tail)
    ensures Break(Word + " " + tail) == Broken + tail
  {
    var s := Word + " " + tail;
    assert s[|Word|..] == " " + tail;
    assert (" " + tail)[1..] == tail;
    assert TrimStart(tail) == tail;
    assert TrimStart(s[|Word|..]) == tail;
    BreakAtFront(s);
    BreakWithoutF(tail);
  }

  /** `SkipTag` past the `br>` of a break. */
  lemma SkipBr(tail: string)
    ensures SkipTag("br>" + tail) == tail
  {
    assert (">" + tail)[0] == '>' && (">" + tail)[1..] == tail;
    assert SkipTag(">" + tail) == tail;
    assert ("r>" + tail)[0] == 'r' && ("r>" + tail)[1..] == ">" + tail;
    assert SkipTag("r>" + tail) == tail;
    assert ("br>" + tail)[0] == 'b' && ("br>" + tail)[1..] == "r>" + tail;
  }

  /** A `<br>` contributes no text. */
  lemma StripBr(tail: string)
    ensures StripTags("<br>" + tail) == StripTags(tail)
  {
    assert ("<br>" + tail)[0] == '<' && ("<br>" + tail)[1..] == "br>" + tail;
    SkipBr(tail);
  }

  /** The text of `FRAGRANCE<br><tail>` is `FRAGRANCE<tail>`. */
  lemma BrokenText(tail: string)
    requires PlainTail(tail)
    ensures StripTags(Broken + tail) == Word + tail
  {
    assert Broken + tail == Word + ("<br>" + tail);
    StripPlain(Word, "<br>" + tail);
    StripBr(tail);
    StripPlain(tail, []);
    assert tail + [] == tail;
  }

  /** `FRAGRANCE<tail>` lacks the heading: the only `F` is the first, and
      no space follows it. */
  lemma NoHeading(tail: string)
    requires PlainTail(tail)
    ensures !Contains(Word + tail, Heading)
  {
    var text := Word + tail;
    assert text[9] == tail[0] != ' ';
    assert !StartsWith(text, Heading) by {
      if |Heading| <= |text| {
        assert text[..|Heading|][9] == text[9];
      }
    }
    assert text[1..] == "RAGRANCE" + tail;
    NoCharNoContains(text[1..], Heading, 0);
  }

  lemma BrokenTitle(tail: string)
    requires PlainTail(tail)
    ensures !Gate(Broken + tail)
  {
    BrokenText(tail);
    TrimPlain(Word + tail);
    NoHeading(tail);
  }

  /** The as-written gate reads `textContent`, where the `<br>` the desktop
      rewrite added leaves no space: `FRAGRANCE Ingredients` becomes
      `FRAGRANCE<br>Ingredients` on a wide window, whose text
      "FRAGRANCEIngredients" lacks the heading, so after narrowing the
      window the break stays. */
  lemma AsWrittenKeepsBreak(tail: string, wide: int, narrow: int)
    requires PlainTail(tail) && StartsWith(tail, "Ingredients")
    requires wide >= Breakpoint > narrow
    ensures HandleTitle(Word + " " + tail, wide) == Broken + tail
    ensures HandleTitle(HandleTitle(Word + " " + tail, wide), narrow) == Broken + tail
    ensures Contains(HandleTitle(HandleTitle(Word + " " + tail, wide), narrow), Broken)
  {
    SpacedGate(tail);
    SpacedUnbroken(tail);
    SpacedBreak(tail);
    BrokenTitle(tail);
    assert StartsWith(Broken + tail, Broken);
  }

  /** "FRAGRANCE Ingredients" itself is such a title. */
  lemma IngredientsIsPlain()
    ensures PlainTail("Ingredients") && StartsWith("Ingredients", "Ingredients")
  {
  }

  // ---------------------------------------------------------------------
  // handleFragranceLineBreaks, corrected

  /** The gate the mobile branch needs: the heading is in the text as it
      reads once any break is turned back into a space. */
  predicate FixedGate(inner: string) {
    Gate(inner) || Gate(Join(inner))
  }

  /** One title with the corrected gate. */
  function HandleTitleFixed(inner: string, width: int): (r: string)
    ensures Gate(inner) ==> FixedGate(inner)
    ensures !FixedGate(inner) ==> r == inner
    ensures FixedGate(inner) && width >= Breakpoint ==> r == Desktop(inner)
    ensures FixedGate(inner) && width < Breakpoint ==> !Contains(r, Broken)
  {
    JoinLeavesNoBreak(inner);
    if !FixedGate(inner) then inner
    else if width >= Breakpoint then Desktop(inner)
    else Join(inner)
  }

  /** With the corrected gate, widening and then narrowing the window
      gives back the title's original markup. */
  lemma FixedRoundTrip(inner: string, wide: int, narrow: int)
    requires Gate(inner) && SingleSpaced(inner) && !Contains(inner, Broken)
    requires wide >= Breakpoint > narrow
    ensures HandleTitleFixed(HandleTitleFixed(inner, wide), narrow) == inner
  {
    JoinUndoesBreak(inner);
  }
}
