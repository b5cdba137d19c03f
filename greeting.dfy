/** The exported render function of index.js: the message is normalised,
    its escapes recorded, its visible text wrapped, and every wrapped line
    restyled, padded, framed and spliced onto the Gregg's ASCII art. The
    row offset of the bubble lives in a `Renderer`, because the module-level
    `topOffset` keeps its value from one call to the next. */
module Greeting {
  import opened Text
  import opened Bubble
  import opened Styles

  // ---- the message ----------------------------------------------------------

  const Magenta: string := "\U{1B}[35m"
  const MagentaClose: string := "\U{1B}[39m"

  /** The built-in greeting, its second line coloured magenta. */
  const DefaultGreeting: Message :=
    PlainText("What does the Gregg say?\n") + [Escape(Magenta)] + PlainText("Squee squee!") + [Escape(MagentaClose)]

  /** index.js:42: an empty message is replaced by the default greeting
      before `trim`, so a message of blanks only becomes empty. */
  function Normalize(message: Message): (r: Message)
    ensures var source := if message == [] then DefaultGreeting else message;
      && LeadingCount(source, IsBlankToken) + |r| <= |source|
      && r == source[LeadingCount(source, IsBlankToken)..LeadingCount(source, IsBlankToken) + |r|]
      && (forall i :: 0 <= i < LeadingCount(source, IsBlankToken) ==> IsBlankToken(source[i]))
      && (forall i :: LeadingCount(source, IsBlankToken) + |r| <= i < |source| ==> IsBlankToken(source[i]))
    ensures r == [] || (!IsBlankToken(r[0]) && !IsBlankToken(r[|r| - 1]))
  {
    Trim(if message == [] then DefaultGreeting else message, IsBlankToken)
  }

  /** A message that is not empty but holds only blanks renders as an empty
      message, not as the default greeting. */
  lemma BlankMessageStaysBlank(message: Message)
    requires message != []
    requires forall i :: 0 <= i < |message| ==> IsBlankToken(message[i])
    ensures Normalize(message) == []
  {
    assert LeadingCount(message, IsBlankToken) == |message|;
  }

  /** Normalising twice changes nothing more, unless the first pass left
      nothing (the empty result then turns into the default greeting). */
  lemma NormalizeIdempotent(message: Message)
    requires Normalize(message) != []
    ensures Normalize(Normalize(message)) == Normalize(message)
  {
    TrimIdle(Normalize(message), IsBlankToken);
  }

  lemma {:induction false} StyleMapPlainSuffix(msg: Message, s: string)
    ensures StyleMap(msg + PlainText(s)) == StyleMap(msg)
    decreases |s|
  {
    if s == [] {
      assert msg + PlainText(s) == msg;
    } else {
      var s' := s[..|s| - 1];
      StyleMapPlainSuffix(msg, s');
      assert (msg + PlainText(s))[..|msg + PlainText(s)| - 1] == msg + PlainText(s');
    }
  }

  lemma StyleMapEscapeSuffix(msg: Message, text: string)
    ensures var m := StyleMap(msg);
      var k := |Strip(msg)|;
      StyleMap(msg + [Escape(text)]) == m[k := if k in m && m[k] != [] then m[k] + text else text]
  {
    assert (msg + [Escape(text)])[..|msg|] == msg;
  }

  lemma StripEscapeSuffix(msg: Message, text: string)
    ensures Strip(msg + [Escape(text)]) == Strip(msg)
  {
    assert (msg + [Escape(text)])[..|msg|] == msg;
  }

  /** The default greeting opens magenta at visible offset 25 (after
      "What does the Gregg say?\n") and closes it at 37, its very end. */
  lemma DefaultGreetingStyles()
    ensures StyleMap(DefaultGreeting) == map[25 := Magenta, 37 := MagentaClose]
    ensures |Strip(DefaultGreeting)| == 37
  {
    var first := PlainText("What does the Gregg say?\n");
    var open := first + [Escape(Magenta)];
    var second := open + PlainText("Squee squee!");
    NoEscapesNoStyles(first);
    StripPlainText("What does the Gregg say?\n");
    StyleMapEscapeSuffix(first, Magenta);
    StripEscapeSuffix(first, Magenta);
    StyleMapPlainSuffix(open, "Squee squee!");
    StripAppend(open, PlainText("Squee squee!"));
    StripPlainText("Squee squee!");
    StyleMapEscapeSuffix(second, MagentaClose);
    StripEscapeSuffix(second, MagentaClose);
  }

  /** Every character of "Squee squee!" gets the magenta code in front: a
      key below it and one above it keep the style going. The closing code
      sits at the end of the visible text, past every character, and is
      never put back. */
  lemma DefaultGreetingCarriesMagenta(c: nat)
    requires 25 <= c < 37
    ensures Prefix(StyleMap(DefaultGreeting), c) == Magenta
    ensures Anchor(StyleMap(DefaultGreeting), c) != Some(37)
  {
    DefaultGreetingStyles();
    var m := StyleMap(DefaultGreeting);
    AnchorSpec(m, c);
    if c > 25 {
      assert 25 in m && 25 < c && 37 in m && c < 37;
      assert Continues(m, c);
      assert Below(m, c) == {25};
    }
  }

  // ---- the lines ------------------------------------------------------------

  /** The wrap width chosen for a message. */
  function MessageWidth(message: Message, options: Options): nat
  {
    WrapWidth(Strip(Normalize(message)), options)
  }

  /** index.js:93-94: the visible text wrapped by `wrap` (the wrap-ansi
      library, a parameter here) and split at line feeds. */
  function WrappedLines(message: Message, options: Options, wrap: (string, nat) -> string): (lines: seq<string>)
    ensures |lines| >= 1
    ensures forall i :: 0 <= i < |lines| ==> '\n' !in lines[i]
    ensures Join(lines, "\n") == wrap(Strip(Normalize(message)), MessageWidth(message, options))
  {
    Split(wrap(Strip(Normalize(message)), MessageWidth(message, options)), '\n')
  }

  predicate WhitespaceRunAt(s: string, i: nat, n: nat)
    requires i + n <= |s|
  {
    forall k :: i <= k < i + n ==> IsWhitespace(s[k])
  }

  /** index.js:75 and 98: whether `\s{n}` matches somewhere in `s`. */
  predicate HasWhitespaceRun(s: string, n: nat)
  {
    exists i: nat :: i + n <= |s| && WhitespaceRunAt(s, i, n)
  }

  /** The length of the longest run of white space in `s`. */
  function LongestRun(s: string): nat
  {
    if s == [] then 0
    else
      var before := LongestRun(s[..|s| - 1]);
      var ending := TrailingCount(s, IsWhitespace);
      if before < ending then ending else before
  }

  lemma {:induction false} LongestRunIsRun(s: string)
    ensures LongestRun(s) <= |s|
    ensures HasWhitespaceRun(s, LongestRun(s))
  {
    if s == [] {
      assert WhitespaceRunAt(s, 0, 0);
    } else {
      var s' := s[..|s| - 1];
      LongestRunIsRun(s');
      var ending := TrailingCount(s, IsWhitespace);
      if LongestRun(s') < ending {
        assert WhitespaceRunAt(s, |s| - ending, ending);
      } else {
        var i: nat :| i + LongestRun(s') <= |s'| && WhitespaceRunAt(s', i, LongestRun(s'));
        assert WhitespaceRunAt(s, i, LongestRun(s'));
      }
    }
  }

  lemma {:induction false} RunWithinLongest(s: string, i: nat, n: nat)
    requires i + n <= |s| && WhitespaceRunAt(s, i, n)
    ensures n <= LongestRun(s)
    decreases |s|
  {
    if i + n < |s| {
      var s' := s[..|s| - 1];
      assert WhitespaceRunAt(s', i, n);
      RunWithinLongest(s', i, n);
    } else if n > 0 {
      TrailingAtLeast(s, n);
    }
  }

  lemma {:induction false} TrailingAtLeast(s: string, n: nat)
    requires n <= |s|
    requires forall k :: |s| - n <= k < |s| ==> IsWhitespace(s[k])
    ensures n <= TrailingCount(s, IsWhitespace)
    decreases n
  {
    if n > 0 {
      var s' := s[..|s| - 1];
      TrailingAtLeast(s', n - 1);
    }
  }

  /** `\s{n}` matches exactly when the longest run of white space is at
      least `n` long. */
  lemma WhitespaceRunIffLongest(s: string, n: nat)
    ensures HasWhitespaceRun(s, n) <==> n <= LongestRun(s)
  {
    LongestRunIsRun(s);
    if HasWhitespaceRun(s, n) {
      var i: nat :| i + n <= |s| && WhitespaceRunAt(s, i, n);
      RunWithinLongest(s, i, n);
    } else if n <= LongestRun(s) {
      var i: nat :| i + LongestRun(s) <= |s| && WhitespaceRunAt(s, i, LongestRun(s));
      assert WhitespaceRunAt(s, i, n);
    }
  }

  /** `r` sits in `line` from index `a` on. */
  predicate PartAt(line: string, a: nat, r: string)
  {
    a + |r| <= |line| && r == line[a..a + |r|]
  }

  /** index.js:98-100: a wrapped line is kept whole when it holds a run of
      white space as long as the wrap width; otherwise it is trimmed. Only
      white space is ever cut, from either end, and a trimmed line neither
      starts nor ends with white space. */
  function Kept(line: string, w: nat): (r: string)
    ensures HasWhitespaceRun(line, w) ==> r == line
    ensures exists a: nat :: && PartAt(line, a, r)
                             && (forall k :: 0 <= k < a ==> IsWhitespace(line[k]))
                             && (forall k :: a + |r| <= k < |line| ==> IsWhitespace(line[k]))
    ensures !HasWhitespaceRun(line, w) ==> r == [] || (!IsWhitespace(r[0]) && !IsWhitespace(r[|r| - 1]))
  {
    if HasWhitespaceRun(line, w) then
      assert PartAt(line, 0, line);
      line
    else
      var r := Trim(line, IsWhitespace);
      assert PartAt(line, LeadingCount(line, IsWhitespace), r);
      r
  }

  /** A run of white space inside a part of a line is one in the line. */
  lemma RunInPart(line: string, a: nat, r: string, w: nat)
    requires PartAt(line, a, r)
    requires HasWhitespaceRun(r, w)
    ensures HasWhitespaceRun(line, w)
  {
    var i: nat :| i + w <= |r| && WhitespaceRunAt(r, i, w);
    assert WhitespaceRunAt(line, a + i, w) by {
      forall k | a + i <= k < a + i + w ensures IsWhitespace(line[k]) {
        assert line[k] == r[k - a];
      }
    }
  }

  /** Keeping a kept line again changes nothing: a trimmed line gains no
      run of white space, and has none at its ends to lose. */
  lemma KeptIdempotent(line: string, w: nat)
    ensures Kept(Kept(line, w), w) == Kept(line, w)
  {
    var r := Kept(line, w);
    if r != line {
      var a: nat :| PartAt(line, a, r);
      if HasWhitespaceRun(r, w) {
        RunInPart(line, a, r, w);
      }
      TrimIdle(r, IsWhitespace);
    }
  }

  function KeptLines(lines: seq<string>, w: nat): (strs: seq<string>)
    ensures |strs| == |lines|
  {
    seq(|lines|, i requires 0 <= i < |lines| => Kept(lines[i], w))
  }

  /** All the strings, one after the other. */
  function Concat(ss: seq<string>): string
  {
    if ss == [] then [] else Concat(ss[..|ss| - 1]) + ss[|ss| - 1]
  }

  /** The `charIndex` of the first character of line `i`
      (index.js:102-108): the kept lines before it, plus one for each line
      break before it. */
  function LineStart(strs: seq<string>, i: nat): nat
    requires i <= |strs|
  {
    |Concat(strs[..i])| + i
  }

  /** The visible text as a wrapper rebuilds it from its lines: between
      each pair, the characters the break took out (none when the break
      splits a word in two). */
  function Spliced(strs: seq<string>, gaps: seq<string>): string
    requires |strs| >= 1 && |gaps| == |strs| - 1
  {
    if |strs| == 1 then strs[0]
    else Spliced(strs[..|strs| - 1], gaps[..|gaps| - 1]) + gaps[|gaps| - 1] + strs[|strs| - 1]
  }

  lemma {:induction false} SplicedLength(strs: seq<string>, gaps: seq<string>)
    requires |strs| >= 1 && |gaps| == |strs| - 1
    ensures |Spliced(strs, gaps)| == |Concat(strs)| + |Concat(gaps)|
  {
    if |strs| == 1 {
      assert strs[..0] == [];
      assert gaps == [];
    } else {
      SplicedLength(strs[..|strs| - 1], gaps[..|gaps| - 1]);
    }
  }

  /** Where line `i` begins in the visible text: the lines before it and
      the characters their breaks took out. */
  function TextStart(strs: seq<string>, gaps: seq<string>, i: nat): nat
    requires i < |strs| && |gaps| == |strs| - 1
  {
    |Concat(strs[..i])| + |Concat(gaps[..i])|
  }

  /** Character `j` of line `i` is character `TextStart + j` of the
      visible text, whatever each break took out. */
  lemma {:induction false} TextStartPosition(strs: seq<string>, gaps: seq<string>, i: nat, j: nat)
    requires |gaps| == |strs| - 1
    requires i < |strs| && j < |strs[i]|
    ensures TextStart(strs, gaps, i) + j < |Spliced(strs, gaps)|
    ensures Spliced(strs, gaps)[TextStart(strs, gaps, i) + j] == strs[i][j]
    decreases |strs|
  {
    var n := |strs| - 1;
    if n == 0 {
      assert strs[..0] == [] && gaps[..0] == [];
    } else {
      var init := strs[..n];
      var gs := gaps[..n - 1];
      if i < n {
        TextStartPosition(init, gs, i, j);
        TextStartOfInit(strs, gaps, i);
      } else {
        TextStartOfLast(strs, gaps);
      }
    }
  }

  /** A line before the last starts where it did without the last line. */
  lemma TextStartOfInit(strs: seq<string>, gaps: seq<string>, i: nat)
    requires |gaps| == |strs| - 1 && i < |strs| - 1
    ensures TextStart(strs, gaps, i) == TextStart(strs[..|strs| - 1], gaps[..|gaps| - 1], i)
  {
    assert strs[..|strs| - 1][..i] == strs[..i];
    assert gaps[..|gaps| - 1][..i] == gaps[..i];
  }

  /** The last line starts after all the others and the last break. */
  lemma TextStartOfLast(strs: seq<string>, gaps: seq<string>)
    requires |strs| >= 2 && |gaps| == |strs| - 1
    ensures var n := |strs| - 1;
      TextStart(strs, gaps, n) == |Spliced(strs[..n], gaps[..n - 1])| + |gaps[n - 1]|
  {
    var n := |strs| - 1;
    SplicedLength(strs[..n], gaps[..n - 1]);
    assert gaps[..n] == gaps;
    assert gaps[..n][..n - 1] == gaps[..n - 1];
  }

  lemma {:induction false} ConcatOfSingles(gs: seq<string>)
    requires forall k :: 0 <= k < |gs| ==> |gs[k]| == 1
    ensures |Concat(gs)| == |gs|
  {
    if gs != [] {
      ConcatOfSingles(gs[..|gs| - 1]);
    }
  }

  /** index.js:106-108 counts one character per line break: right when
      every break took out exactly one character. */
  lemma LineStartIsTextStart(strs: seq<string>, gaps: seq<string>, i: nat)
    requires i < |strs| && |gaps| == |strs| - 1
    requires forall k :: 0 <= k < |gaps| ==> |gaps[k]| == 1
    ensures LineStart(strs, i) == TextStart(strs, gaps, i)
  {
    ConcatOfSingles(gaps[..i]);
  }

  /** When every break took out one character, as a break at a space does,
      character `j` of line `i` sits at visible offset
      `LineStart(strs, i) + j`, the offset index.js:106-108 computes. */
  lemma PositionInText(strs: seq<string>, gaps: seq<string>, i: nat, j: nat)
    requires |gaps| == |strs| - 1
    requires forall k :: 0 <= k < |gaps| ==> |gaps[k]| == 1
    requires i < |strs| && j < |strs[i]|
    ensures LineStart(strs, i) + j < |Spliced(strs, gaps)|
    ensures Spliced(strs, gaps)[LineStart(strs, i) + j] == strs[i][j]
  {
    LineStartIsTextStart(strs, gaps, i);
    TextStartPosition(strs, gaps, i, j);
  }

  // ---- one line ----------------------------------------------------------

  /** index.js:104-140 for a kept line `str` starting at visible offset
      `start`: restyled, trimmed, padded to `w` columns and framed. */
  ghost function Padded(str: string, m: map<nat, string>, start: nat, w: nat): Message
  {
    PadCentre(Trim(Rebuilt(str, Prefixes(str, m, start)), IsBlankToken), w)
  }

  ghost function LineBody(str: string, m: map<nat, string>, start: nat, w: nat, side: string): string
  {
    side + " " + Raw(Padded(str, m, start, w)) + " " + side
  }

  /** The framed bodies of the kept lines `strs`, in order. */
  ghost function Bodies(strs: seq<string>, m: map<nat, string>, w: nat, side: string, k: nat): (bodies: seq<string>)
    requires k <= |strs|
    ensures |bodies| == k
  {
    if k == 0 then []
    else Bodies(strs, m, w, side, k - 1) + [LineBody(strs[k - 1], m, LineStart(strs, k - 1), w, side)]
  }

  /** A kept line that neither starts nor ends with white space shows its
      characters unchanged, centred in `w` columns: the texts put back and
      the final trim take nothing from it. */
  lemma PaddedShowsLine(str: string, m: map<nat, string>, start: nat, w: nat)
    requires str == [] || (!IsWhitespace(str[0]) && !IsWhitespace(str[|str| - 1]))
    ensures var d := if |str| >= w then 0 else w - |str|;
      Strip(Padded(str, m, start, w)) == Spaces((d + 1) / 2) + str + Spaces(d / 2)
  {
    var r := Rebuilt(str, Prefixes(str, m, start));
    RebuiltTrimmed(str, Prefixes(str, m, start));
    CentredText(r, str, w);
  }

  lemma CentredText(r: Message, str: string, w: nat)
    requires Strip(r) == str
    ensures var d := if |str| >= w then 0 else w - |str|;
      Strip(PadCentre(r, w)) == Spaces((d + 1) / 2) + str + Spaces(d / 2)
  {
  }

  /** The final trim leaves a rebuilt line whole when the line neither
      starts nor ends with white space. */
  lemma RebuiltTrimmed(str: string, ps: seq<string>)
    requires |ps| == |str|
    requires str == [] || (!IsWhitespace(str[0]) && !IsWhitespace(str[|str| - 1]))
    ensures Trim(Rebuilt(str, ps), IsBlankToken) == Rebuilt(str, ps)
    ensures Strip(Rebuilt(str, ps)) == str
  {
    RebuiltStrip(str, ps);
    if str != [] {
      RebuiltEnds(str, ps);
    }
    TrimIdle(Rebuilt(str, ps), IsBlankToken);
  }

  /** A rebuilt line starts with a text or with its first character, and
      ends with its last character. */
  lemma RebuiltEnds(line: string, ps: seq<string>)
    requires |ps| == |line| && line != []
    ensures var r := Rebuilt(line, ps);
      r != [] && r[|r| - 1] == Plain(line[|line| - 1])
      && (r[0].Escape? || r[0] == Plain(line[0]))
  {
    var r := Rebuilt(line, ps);
    RebuiltCellAt(line, ps, 0);
    assert line[..0] == [] && ps[..0] == [];
    var cell := Cell(ps[0], line[0]);
    assert cell <= r;
    assert r[0] == cell[0];
  }

  /** What is put back in front of the character at index `j` of a line
      starting at `start`: its own text, else the continued one, else
      nothing; line terminators never get anything. */
  lemma PrefixRule(str: string, m: map<nat, string>, start: nat, j: nat)
    requires j < |str|
    ensures var c := start + j;
      var p := Prefixes(str, m, start)[j];
      && (IsLineTerminator(str[j]) ==> p == [])
      && (!IsLineTerminator(str[j]) && c in m && m[c] != [] ==> p == m[c])
      && (!IsLineTerminator(str[j]) && !(c in m && m[c] != []) && Continues(m, c) ==>
            Below(m, c) != {} && p == m[Greatest(Below(m, c))])
      && (!IsLineTerminator(str[j]) && !(c in m && m[c] != []) && !Continues(m, c) ==> p == [])
  {
    var c := start + j;
    if Continues(m, c) {
      ContinuesHasBelow(m, c);
    }
  }

  /** With one character taken out per break, no character is given the
      text of a key at or past the end of the visible text: the anchor
      chosen for it lies at or below its own offset. */
  lemma EndKeyNeverEmitted(strs: seq<string>, gaps: seq<string>, m: map<nat, string>, i: nat, j: nat)
    requires |gaps| == |strs| - 1
    requires forall k :: 0 <= k < |gaps| ==> |gaps[k]| == 1
    requires i < |strs| && j < |strs[i]|
    ensures var a := Anchor(m, LineStart(strs, i) + j);
      a.Some? ==> a.value < |Spliced(strs, gaps)|
  {
    PositionInText(strs, gaps, i, j);
    AnchorSpec(m, LineStart(strs, i) + j);
  }

  /** Offsetting each line by `TextStart` gives every character exactly
      the text chosen for its own offset in the visible text, and never
      the text of a key at or past its end. */
  lemma StyleAtTextOffset(strs: seq<string>, gaps: seq<string>, m: map<nat, string>, i: nat, j: nat)
    requires |gaps| == |strs| - 1
    requires i < |strs| && j < |strs[i]|
    ensures var text := Spliced(strs, gaps);
      var c := TextStart(strs, gaps, i) + j;
      && c < |text|
      && Prefixes(strs[i], m, TextStart(strs, gaps, i))[j] == CharPrefix(m, c, text[c])
      && (Anchor(m, c).Some? ==> Anchor(m, c).value < |text|)
  {
    TextStartPosition(strs, gaps, i, j);
    AnchorSpec(m, TextStart(strs, gaps, i) + j);
  }

  /** index.js:106-108 as written, for a word that a hard wrap at 24
      columns splits without taking out a character: the second line is
      placed one offset too far, and the closing code, which sits after
      the last character, is put in front of the `z`; the true offset gives
      it magenta. */
  lemma HardBreakMovesClosingCode()
    ensures var message := [Escape(Magenta)] + PlainText("abcdefghijklmnopqrstuvwxyz") + [Escape(MagentaClose)];
      var strs := ["abcdefghijklmnopqrstuvwx", "yz"];
      var m := StyleMap(message);
      && Normalize(message) == message
      && m == map[0 := Magenta, 26 := MagentaClose]
      && Spliced(strs, [[]]) == Strip(message)
      && LineStart(strs, 1) == 25 && TextStart(strs, [[]], 1) == 24
      && Prefixes(strs[1], m, LineStart(strs, 1))[1] == MagentaClose
      && Prefixes(strs[1], m, TextStart(strs, [[]], 1))[1] == Magenta
  {
    AlphabetStyles();
    AlphabetLines();
    ClosingCodeOffsets();
  }

  lemma AlphabetStyles()
    ensures var message := [Escape(Magenta)] + PlainText("abcdefghijklmnopqrstuvwxyz") + [Escape(MagentaClose)];
      && Normalize(message) == message
      && StyleMap(message) == map[0 := Magenta, 26 := MagentaClose]
      && Strip(message) == "abcdefghijklmnopqrstuvwxyz"
  {
    var alphabet := "abcdefghijklmnopqrstuvwxyz";
    var open := [Escape(Magenta)];
    var second := open + PlainText(alphabet);
    var message := second + [Escape(MagentaClose)];
    TrimIdle(message, IsBlankToken);
    assert open == [] + [Escape(Magenta)];
    StyleMapEscapeSuffix([], Magenta);
    StripEscapeSuffix([], Magenta);
    StyleMapPlainSuffix(open, alphabet);
    StripAppend(open, PlainText(alphabet));
    StripPlainText(alphabet);
    StyleMapEscapeSuffix(second, MagentaClose);
    StripEscapeSuffix(second, MagentaClose);
  }

  lemma AlphabetLines()
    ensures var strs := ["abcdefghijklmnopqrstuvwx", "yz"];
      && Spliced(strs, [[]]) == "abcdefghijklmnopqrstuvwxyz"
      && LineStart(strs, 1) == 25 && TextStart(strs, [[]], 1) == 24
  {
    var strs := ["abcdefghijklmnopqrstuvwx", "yz"];
    assert strs[..1] == [strs[0]] && [strs[0]][..0] == [];
    var gaps: seq<string> := [[]];
    assert gaps[..1] == gaps && gaps[..0] == [];
    assert strs[..1] == strs[..|strs| - 1];
    assert Spliced(strs, gaps) == strs[0] + [] + strs[1];
  }

  lemma ClosingCodeOffsets()
    ensures var m := map[0 := Magenta, 26 := MagentaClose];
      && Prefixes("yz", m, 25)[1] == MagentaClose
      && Prefixes("yz", m, 24)[1] == Magenta
  {
    var m := map[0 := Magenta, 26 := MagentaClose];
    assert Prefix(m, 26) == MagentaClose;
    assert 0 in m && 0 < 25 && 26 in m && 25 < 26;
    assert Continues(m, 25);
    assert Below(m, 25) == {0};
    GreatestIs(Below(m, 25), 0);
    assert Prefix(m, 25) == Magenta;
  }

  // ---- the rows -------------------------------------------------------------

  const LeftOffset: nat := 42
  const TotalCharactersPerLine: nat := 28 + LeftOffset
  const MaxLinesBeforeOverflow: nat := 7

  /** The Gregg, without its colours: fourteen rows of 42 columns. */
  const Background: seq<string> := [
    "     ____                       ____      ",
    "    /    \\  ___-----------___  /    \\     ",
    "   /     /--                 --\\     \\    ",
    "  /     /                       \\     \\   ",
    " /     /  /---\\           /---\\  \\     \\ /",
    " \\____/   | C |           | C |   \\____/  ",
    "      |   \\---/  _______  \\---/   |       ",
    "      |         /  ___  \\         |       ",
    "      |         |  \\ /  |         |       ",
    "      |_        | \\_|_/ |        _|       ",
    "     /  \\        \\_____/        /  \\      ",
    "     \\   \\--___           ___--/   /      ",
    "      \\   \\    -----------    /   /       ",
    "       \\__/                   \\__/        "
  ]

  lemma BackgroundShape()
    ensures |Background| == 14
    ensures forall k :: 0 <= k < |Background| ==> |Background[k]| == LeftOffset
  {
  }

  /** index.js:145-151: how far the bubble rises for `n` lines. */
  function Rise(n: nat): (r: nat)
    ensures n <= 1 ==> r == 0
    ensures n == 2 ==> r == 1
    ensures n >= 3 ==> r == 2
  {
    if n == 2 then 1 else if n >= 3 then 2 else 0
  }

  /** index.js:156-157: blank rows put on top for more than 7 lines. */
  function Overflow(n: nat): nat
  {
    if n > MaxLinesBeforeOverflow then (n - MaxLinesBeforeOverflow + 1) / 2 else 0
  }

  /** The blank rows are `Math.ceil((n - 7) / 2)`. */
  lemma OverflowIsCeiling(n: nat)
    ensures n <= MaxLinesBeforeOverflow ==> Overflow(n) == 0
    ensures n > MaxLinesBeforeOverflow ==>
      2 * Overflow(n) >= n - MaxLinesBeforeOverflow && 2 * Overflow(n) < n - MaxLinesBeforeOverflow + 2
  {
  }

  function Blank(k: nat): (rows: seq<string>)
  {
    seq(k, _ => "")
  }

  /** The rows of the art `art` before any of `n` lines is placed. */
  function Canvas(art: seq<string>, n: nat): (rows: seq<string>)
  {
    Blank(Overflow(n)) + art
  }

  /** `greeting[k] || pad.left('', leftOffset)`: an absent or empty row
      reads as 42 spaces. */
  function Row(rows: seq<string>, k: nat): (r: string)
    ensures k < |rows| && rows[k] != "" ==> r == rows[k]
    ensures k >= |rows| || rows[k] == "" ==> r == Spaces(LeftOffset)
  {
    if k < |rows| && rows[k] != "" then rows[k] else Spaces(LeftOffset)
  }

  /** `greeting[k] = v` for an index at most one past the end. */
  function SetRow(rows: seq<string>, k: nat, v: string): (r: seq<string>)
    requires k <= |rows|
    ensures |r| == if k < |rows| then |rows| else k + 1
    ensures r[k] == v
    ensures forall i :: 0 <= i < |rows| && i != k ==> r[i] == rows[i]
  {
    if k < |rows| then rows[k := v] else rows + [v]
  }

  /** `greeting[t - 1] += top`. */
  function WithTop(rows: seq<string>, t: nat, top: string): (r: seq<string>)
    requires 1 <= t <= |rows|
    ensures |r| == |rows|
    ensures r[t - 1] == rows[t - 1] + top
    ensures forall i :: 0 <= i < |rows| && i != t - 1 ==> r[i] == rows[i]
  {
    rows[t - 1 := rows[t - 1] + top]
  }

  /** The pieces `tail` appended, one row each, to the rows from `t` on. */
  function Placed(rows: seq<string>, t: nat, tail: seq<string>): (r: seq<string>)
    requires t <= |rows|
    ensures |r| == if t + |tail| > |rows| then t + |tail| else |rows|
  {
    if tail == [] then rows
    else
      var before := Placed(rows, t, tail[..|tail| - 1]);
      var k := t + |tail| - 1;
      SetRow(before, k, Row(before, k) + tail[|tail| - 1])
  }

  /** Placing the pieces one after another leaves every row as its own
      piece appended to the row that was there (or to 42 spaces), and every
      other row as it was. */
  lemma {:induction false} PlacedRows(rows: seq<string>, t: nat, tail: seq<string>)
    requires t <= |rows|
    ensures var r := Placed(rows, t, tail);
      forall k :: 0 <= k < |r| ==>
        r[k] == if t <= k < t + |tail| then Row(rows, k) + tail[k - t] else rows[k]
  {
    if tail != [] {
      var tail' := tail[..|tail| - 1];
      PlacedRows(rows, t, tail');
      var before := Placed(rows, t, tail');
      var k := t + |tail| - 1;
      assert Row(before, k) == Row(rows, k);
    }
  }

  lemma PlacedSnoc(rows: seq<string>, t: nat, tail: seq<string>, x: string)
    requires t <= |rows|
    ensures var before := Placed(rows, t, tail);
      Placed(rows, t, tail + [x]) == SetRow(before, t + |tail|, Row(before, t + |tail|) + x)
  {
    assert (tail + [x])[..|tail|] == tail;
  }

  /** One more piece, appended to the row just below those already placed. */
  lemma PlacedNext(rows: seq<string>, t: nat, tail: seq<string>, r: seq<string>, k: nat, x: string)
    requires t <= |rows| && r == Placed(rows, t, tail) && k == t + |tail|
    ensures k <= |r| && SetRow(r, k, Row(r, k) + x) == Placed(rows, t, tail + [x])
  {
    PlacedSnoc(rows, t, tail, x);
  }

  /** The top border, pushed right to column 70 when blank rows go on top. */
  function TopBorder(n: nat, frame: Frame): string
  {
    if n > MaxLinesBeforeOverflow then PadLeft(frame.top, TotalCharactersPerLine) else frame.top
  }

  /** The rows once the wrapped `lines` are placed with the bubble
      starting at row `t`. */
  ghost function Layout(art: seq<string>, lines: seq<string>, m: map<nat, string>, w: nat, frame: Frame, t: nat): seq<string>
    requires 1 <= t <= |art|
  {
    var n := |lines|;
    Placed(WithTop(Canvas(art, n), t, TopBorder(n, frame)), t, Bodies(KeptLines(lines, w), m, w, frame.side, n) + [frame.bottom])
  }

  /** The finished rows of a message whose bubble starts at row `t`. */
  ghost function LayoutRows(message: Message, options: Options, wrap: (string, nat) -> string, t: nat): seq<string>
    requires 1 <= t <= |Background|
  {
    var w := MessageWidth(message, options);
    Layout(Background, WrappedLines(message, options, wrap), StyleMap(Normalize(message)), w, MakeFrame(w), t)
  }

  /** index.js:181: the rows joined by line feeds, with one after the last. */
  ghost function Rendered(message: Message, options: Options, wrap: (string, nat) -> string, t: nat): string
    requires 1 <= t <= |Background|
  {
    Join(LayoutRows(message, options, wrap, t), "\n") + "\n"
  }

  /** The output always ends with a line feed and holds at least the
      fourteen rows of the art. */
  lemma RenderedShape(message: Message, options: Options, wrap: (string, nat) -> string, t: nat)
    requires 1 <= t <= |Background|
    ensures var out := Rendered(message, options, wrap, t);
      out != [] && out[|out| - 1] == '\n'
    ensures |LayoutRows(message, options, wrap, t)| >= |Background|
      + Overflow(|WrappedLines(message, options, wrap)|)
  {
  }

  /** The top border appended to row `t - 1`, then the pieces of `tail`
      to the rows from `t` on. */
  lemma SplicedRows(rows: seq<string>, t: nat, top: string, tail: seq<string>, k: nat)
    requires 1 <= t <= |rows|
    requires k < |Placed(WithTop(rows, t, top), t, tail)|
    ensures var canvas := WithTop(rows, t, top);
      var r := Placed(canvas, t, tail);
      && (k == t - 1 ==> r[k] == rows[k] + top)
      && (t <= k < t + |tail| ==> r[k] == Row(canvas, k) + tail[k - t])
      && (k < t - 1 || k >= t + |tail| ==> r[k] == rows[k])
  {
    PlacedRows(WithTop(rows, t, top), t, tail);
  }

  /** Where everything lands: the top border on row `t - 1`, line `i` on
      row `t + i` after the row's own text (or 42 spaces), the bottom
      border on row `t + n`, and every other row untouched. */
  lemma LayoutPlacesBubble(message: Message, options: Options, wrap: (string, nat) -> string, t: nat, k: nat)
    requires 1 <= t <= |Background|
    requires k < |LayoutRows(message, options, wrap, t)|
    ensures var w := MessageWidth(message, options);
      var frame := MakeFrame(w);
      var n := |WrappedLines(message, options, wrap)|;
      var top := TopBorder(n, frame);
      var canvas := WithTop(Canvas(Background, n), t, top);
      var bodies := Bodies(KeptLines(WrappedLines(message, options, wrap), w), StyleMap(Normalize(message)), w, frame.side, n);
      var r := LayoutRows(message, options, wrap, t);
      && (k == t - 1 ==> r[k] == Canvas(Background, n)[k] + top)
      && (t <= k < t + n ==> r[k] == Row(canvas, k) + bodies[k - t])
      && (k == t + n ==> r[k] == Row(canvas, k) + frame.bottom)
      && (k < t - 1 || k > t + n ==> r[k] == Canvas(Background, n)[k])
  {
    var w := MessageWidth(message, options);
    var frame := MakeFrame(w);
    var n := |WrappedLines(message, options, wrap)|;
    var top := TopBorder(n, frame);
    var bodies := Bodies(KeptLines(WrappedLines(message, options, wrap), w), StyleMap(Normalize(message)), w, frame.side, n);
    SplicedRows(Canvas(Background, n), t, top, bodies + [frame.bottom], k);
  }

  // ---- the renderer ---------------------------------------------------------

  /** index.js:104-140 and 169-171: a kept line starting at visible offset
      `start`, restyled, trimmed, padded and put between the sides. */
  method FormatLine(str: string, styled: map<nat, string>, start: nat, maxLength: nat, side: string, ghost strs: seq<string>, ghost i: nat) returns (body: string)
    requires i < |strs| && str == strs[i] && start == LineStart(strs, i)
    ensures body == LineBody(strs[i], styled, LineStart(strs, i), maxLength, side)
  {
    var line := RestyleLine(str, styled, start);
    var padded := PadCentre(Trim(line, IsBlankToken), maxLength);
    body := side + " " + Raw(padded) + " " + side;
  }

  /** index.js:98-100. */
  method KeepLine(line: string, w: nat) returns (str: string)
    ensures str == Kept(line, w)
  {
    str := line;
    if !HasWhitespaceRun(str, w) {
      str := Trim(str, IsWhitespace);
    }
  }

  /** index.js:98-108: line `i` kept or trimmed and appended to the lines
      before it, then restyled, padded and framed. */
  method NextBody(lines: seq<string>, i: nat, completed: string, styled: map<nat, string>, maxLength: nat, side: string,
                  ghost strs: seq<string>) returns (completed': string, body: string)
    requires strs == KeptLines(lines, maxLength)
    requires i < |lines| && completed == Concat(strs[..i])
    ensures completed' == Concat(strs[..i + 1])
    ensures body == LineBody(strs[i], styled, LineStart(strs, i), maxLength, side)
  {
    var str := KeepLine(lines[i], maxLength);
    completed' := completed + str;
    var piece := completed'[|completed'| - |str|..];
    var start := |completed'| - |str| + i;
    NextLine(lines, strs, maxLength, i, completed, str);
    body := FormatLine(piece, styled, start, maxLength, side, strs, i);
  }

  /** The piece cut from the end of the extended text is the kept line,
      and its first character sits at `LineStart`. */
  lemma NextLine(lines: seq<string>, strs: seq<string>, w: nat, i: nat, completed: string, str: string)
    requires strs == KeptLines(lines, w)
    requires i < |lines| && completed == Concat(strs[..i]) && str == Kept(lines[i], w)
    ensures var completed' := completed + str;
      && completed' == Concat(strs[..i + 1])
      && completed'[|completed'| - |str|..] == strs[i]
      && |completed'| - |str| + i == LineStart(strs, i)
  {
    assert strs[..i + 1][..i] == strs[..i];
    var completed' := completed + str;
    assert completed'[|completed'| - |str|..] == str;
  }

  /** index.js:159-161: `k` empty rows put in front. */
  method Unshift(rows: seq<string>, k: nat) returns (r: seq<string>)
    ensures r == Blank(k) + rows
  {
    r := rows;
    var i := 0;
    while i < k
      invariant 0 <= i <= k
      invariant r == Blank(i) + rows
    {
      r := [""] + r;
      assert [""] + Blank(i) == Blank(i + 1);
      i := i + 1;
    }
  }

  /** The module-level state of index.js: the row the bubble starts on. */
  class Renderer {
    var topOffset: int

    /** The offset starts at 4 and only ever decreases. */
    ghost predicate Valid()
      reads this
    {
      topOffset <= 4
    }

    /** index.js:13. */
    constructor ()
      ensures Valid() && topOffset == 4
    {
      topOffset := 4;
    }

    /** index.js:41-182. The caller must leave room above the bubble: a
        `topOffset` of 0 or less makes index.js write to negative array
        indices, which `join` ignores. */
    method Render(message: Message, options: Options, wrap: (string, nat) -> string) returns (out: string)
      requires Valid()
      requires topOffset - Rise(|WrappedLines(message, options, wrap)|) >= 1
      modifies this
      ensures Valid()
      ensures topOffset == old(topOffset) - Rise(|WrappedLines(message, options, wrap)|)
      ensures out == Rendered(message, options, wrap, topOffset)
    {
      var msg := Normalize(message);
      var stripped := Strip(msg);
      var maxLength := WrapWidth(stripped, options);
      var frame := MakeFrame(maxLength);
      var styled := ExtractStyles(msg);
      var lines := Split(wrap(stripped, maxLength), '\n');
      var rows := PlaceLines(Background, lines, styled, maxLength, frame);
      out := Join(rows, "\n") + "\n";
    }

    /** index.js:142-167, on the first line: the bubble rises by one row
        for two lines and by two for more; beyond seven lines blank rows go
        on top and the top border is pushed right to column 70; the top
        border then goes at the end of the row above the bubble. */
    method StartBubble(rows: seq<string>, n: nat, frame: Frame) returns (r: seq<string>)
      requires |rows| >= 4
      requires Valid() && topOffset - Rise(n) >= 1
      modifies this
      ensures Valid() && topOffset == old(topOffset) - Rise(n)
      ensures r == WithTop(Canvas(rows, n), topOffset, TopBorder(n, frame))
    {
      if n == 2 {
        topOffset := topOffset - 1;
      }
      if n >= 3 {
        topOffset := topOffset - 2;
      }
      var top := frame.top;
      r := rows;
      if n > MaxLinesBeforeOverflow {
        var emptyLines := (n - MaxLinesBeforeOverflow + 1) / 2;
        r := Unshift(r, emptyLines);
        top := PadLeft(top, TotalCharactersPerLine);
      }
      r := r[topOffset - 1 := r[topOffset - 1] + top];
    }

    /** index.js:95-180, the `reduce` over the wrapped lines: each line
        kept or trimmed, restyled, padded and framed onto its row; on the
        first line the bubble rises and, for long messages, blank rows go
        on top; after the last line comes the bottom border. */
    method PlaceLines(art: seq<string>, lines: seq<string>, styled: map<nat, string>, maxLength: nat, frame: Frame) returns (rows: seq<string>)
      requires |art| >= 4
      requires Valid()
      requires |lines| >= 1
      requires topOffset - Rise(|lines|) >= 1
      modifies this
      ensures Valid()
      ensures topOffset == old(topOffset) - Rise(|lines|)
      ensures rows == Layout(art, lines, styled, maxLength, frame, topOffset)
    {
      ghost var n := |lines|;
      ghost var t := topOffset - Rise(n);
      ghost var strs := KeptLines(lines, maxLength);
      ghost var canvas := WithTop(Canvas(art, n), t, TopBorder(n, frame));
      ghost var done: seq<string> := [];

      rows := art;
      var completed: string := [];
      var i := 0;
      while i < |lines|
        invariant 0 <= i <= n
        invariant completed == Concat(strs[..i])
        invariant done == Bodies(strs, styled, maxLength, frame.side, i)
        invariant i == 0 ==> rows == art && topOffset == old(topOffset)
        invariant i > 0 ==> topOffset == t
        invariant 0 < i < n ==> rows == Placed(canvas, t, done)
        invariant i == n ==> rows == Placed(canvas, t, done + [frame.bottom])
      {
        var body;
        completed, body := NextBody(lines, i, completed, styled, maxLength, frame.side, strs);
        rows := PlaceBody(rows, i, |lines|, body, frame, art, t, canvas, done);
        done := done + [body];
        i := i + 1;
      }
    }

    /** One step of the `reduce` (index.js:142-177) once line `i`'s body
        is known: on the first line the bubble is started; the body goes
        on row `i + topOffset`, and after the last line the bottom border
        on the row below. */
    method PlaceBody(rows: seq<string>, i: nat, n: nat, body: string, frame: Frame,
                     ghost art: seq<string>, ghost t: int, ghost canvas: seq<string>, ghost done: seq<string>) returns (r: seq<string>)
      requires i < n && |done| == i
      requires Valid() && 1 <= t <= 4 <= |art|
      requires canvas == WithTop(Canvas(art, n), t, TopBorder(n, frame))
      requires i == 0 ==> rows == art && t == topOffset - Rise(n)
      requires i > 0 ==> topOffset == t && rows == Placed(canvas, t, done)
      modifies this
      ensures Valid() && topOffset == t
      ensures i + 1 < n ==> r == Placed(canvas, t, done + [body])
      ensures i + 1 == n ==> r == Placed(canvas, t, done + [body] + [frame.bottom])
    {
      r := rows;
      if i == 0 {
        r := StartBubble(r, n, frame);
      }
      var k := i + topOffset;
      PlacedNext(canvas, t, done, r, k, body);
      r := SetRow(r, k, Row(r, k) + body);
      if n == i + 1 {
        PlacedNext(canvas, t, done + [body], r, k + 1, frame.bottom);
        r := SetRow(r, k + 1, Row(r, k + 1) + frame.bottom);
      }
    }
  }
}
