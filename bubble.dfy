/** The speech bubble's geometry: the wrap width, the rounded frame and the
    centring of each line inside it. */
module Bubble {
  import opened Text

  /** The `options` argument; an absent object is `Options(None)`. */
  datatype Options = Options(maxLength: Option<int>)

  const DefaultWidth: nat := 24

  /** `if (options.maxLength)`: JavaScript truthiness of a number. */
  predicate HasMaxLength(options: Options)
  {
    options.maxLength.Some? && options.maxLength.value != 0
  }

  // ---- the first word in sort order --------------------------------------

  /** JavaScript's `<=` on strings: code unit by code unit, a proper prefix
      first. */
  predicate LexLessEq(a: string, b: string)
    decreases |a|
  {
    a == [] || (b != [] && (a[0] < b[0] || (a[0] == b[0] && LexLessEq(a[1..], b[1..]))))
  }

  lemma {:induction false} LexReflexive(a: string)
    ensures LexLessEq(a, a)
    decreases |a|
  {
    if a != [] {
      LexReflexive(a[1..]);
    }
  }

  lemma {:induction false} LexTotal(a: string, b: string)
    ensures LexLessEq(a, b) || LexLessEq(b, a)
    decreases |a|
  {
    if a != [] && b != [] && a[0] == b[0] {
      LexTotal(a[1..], b[1..]);
    }
  }

  lemma {:induction false} LexTransitive(a: string, b: string, c: string)
    requires LexLessEq(a, b) && LexLessEq(b, c)
    ensures LexLessEq(a, c)
    decreases |a|
  {
    if a != [] && a[0] == b[0] && b[0] == c[0] {
      LexTransitive(a[1..], b[1..], c[1..]);
    }
  }

  lemma {:induction false} LexAntisymmetric(a: string, b: string)
    requires LexLessEq(a, b) && LexLessEq(b, a)
    ensures a == b
    decreases |a|
  {
    if a != [] {
      LexAntisymmetric(a[1..], b[1..]);
      assert a == [a[0]] + a[1..] && b == [b[0]] + b[1..];
    }
  }

  /** `words.sort()[0]`: the least word in JavaScript's default order. */
  function SortFirst(words: seq<string>): (r: string)
    requires |words| >= 1
    ensures r in words
    ensures forall k :: 0 <= k < |words| ==> LexLessEq(r, words[k])
    decreases |words|
  {
    if |words| == 1 then
      LexReflexive(words[0]);
      words[0]
    else
      var rest := SortFirst(words[1..]);
      LexTotal(words[0], rest);
      if LexLessEq(words[0], rest) then
        LexReflexive(words[0]);
        assert forall k :: 1 <= k < |words| ==> LexLessEq(words[0], words[k]) by {
          forall k | 1 <= k < |words| ensures LexLessEq(words[0], words[k]) {
            assert words[k] == words[1..][k - 1];
            LexTransitive(words[0], rest, words[k]);
          }
        }
        words[0]
      else
        assert forall k :: 0 <= k < |words| ==> LexLessEq(rest, words[k]) by {
          forall k | 0 <= k < |words| ensures LexLessEq(rest, words[k]) {
            if k > 0 { assert words[k] == words[1..][k - 1]; }
          }
        }
        rest
  }

  /** Whatever order the sort leaves equal words in, its first element is
      the one least word. */
  lemma SortFirstUnique(words: seq<string>, w: string)
    requires |words| >= 1 && w in words
    requires forall k :: 0 <= k < |words| ==> LexLessEq(w, words[k])
    ensures w == SortFirst(words)
  {
    var r := SortFirst(words);
    var i :| 0 <= i < |words| && words[i] == r;
    var j :| 0 <= j < |words| && words[j] == w;
    LexAntisymmetric(w, r);
  }

  /** The length of the lexicographically first lower-cased space-separated
      word of the visible text. */
  function FirstWordLength(stripped: string): nat
  {
    |SortFirst(Split(Lower(stripped), ' '))|
  }

  /** The wrap width: 24 without `maxLength`; with it, the larger of
      `maxLength` and the length of the first word in sort order. */
  function WrapWidth(stripped: string, options: Options): (w: nat)
    ensures !HasMaxLength(options) ==> w == DefaultWidth
    ensures HasMaxLength(options) ==> w >= options.maxLength.value && w >= FirstWordLength(stripped)
    ensures HasMaxLength(options) ==> w == options.maxLength.value || w == FirstWordLength(stripped)
  {
    if HasMaxLength(options) then
      var first := FirstWordLength(stripped);
      if first < options.maxLength.value then options.maxLength.value else first
    else DefaultWidth
  }

  /** With `maxLength`, the width is that option or the length of one of
      the message's own space-separated words. */
  lemma WrapWidthIsOptionOrWord(stripped: string, options: Options)
    requires HasMaxLength(options)
    ensures WrapWidth(stripped, options) == options.maxLength.value
         || exists k :: 0 <= k < |Split(stripped, ' ')| && WrapWidth(stripped, options) == |Split(stripped, ' ')[k]|
  {
    var words := Split(Lower(stripped), ' ');
    SplitLower(stripped);
    var first := SortFirst(words);
    var k :| 0 <= k < |words| && words[k] == first;
    assert |first| == |Split(stripped, ' ')[k]|;
  }

  /** The chosen word is the first in sort order, not the longest one: with
      `maxLength` 1 the words of "a bb" give width 1, below the 2 of "bb". */
  lemma WidthCanBeBelowLongestWord()
    ensures WrapWidth("a bb", Options(Some(1))) == 1
  {
    assert Lower("a bb") == "a bb";
    assert Split("bb", ' ') == ["bb"] by { SplitPiece("bb", ' '); }
    assert " bb"[1..] == "bb";
    assert Split(" bb", ' ') == [[]] + ["bb"];
    assert "a bb"[1..] == " bb";
    assert Split("a bb", ' ') == [['a'] + []] + ["bb"];
    assert ['a'] + [] == "a";
    assert LexLessEq("a", "bb");
  }

  // ---- frame ----------------------------------------------------------------

  /** cli-boxes' round box and ansi-styles' reset code. */
  const TopLeft: char := '╭'
  const TopRight: char := '╮'
  const BottomLeft: char := '╰'
  const BottomRight: char := '╯'
  const Horizontal: char := '─'
  const Vertical: char := '│'
  const Reset: string := "\U{1B}[0m"

  datatype Frame = Frame(top: string, side: string, bottom: string)

  /** The border around lines of `w` columns: `w + 2` horizontal glyphs
      between the corners (one space of margin on each side), the side and
      the bottom fenced by reset codes. */
  function MakeFrame(w: nat): (f: Frame)
    ensures |f.top| == w + 4
    ensures f.top[0] == TopLeft && f.top[w + 3] == TopRight
    ensures forall i :: 1 <= i <= w + 2 ==> f.top[i] == Horizontal
    ensures f.side == Reset + [Vertical] + Reset
    ensures f.bottom == Reset + [BottomLeft] + f.top[1..w + 3] + [BottomRight]
  {
    var horizontal := seq(w + 2, _ => Horizontal);
    var top := [TopLeft] + horizontal + [TopRight];
    assert top[1..w + 3] == horizontal;
    Frame(top, Reset + [Vertical] + Reset, Reset + [BottomLeft] + horizontal + [BottomRight])
  }

  // ---- padding --------------------------------------------------------------

  /** pad-component's `pad(str, width)` as index.js calls it: the line is
      fenced by reset codes and centred in `width` columns, the odd space
      going to the left; a line already as wide is only fenced. */
  function PadCentre(line: Message, width: int): (r: Message)
    ensures VisibleWidth(r) == if VisibleWidth(line) >= width then VisibleWidth(line) else width
    ensures var d := if VisibleWidth(line) >= width then 0 else width - VisibleWidth(line);
      Strip(r) == Spaces((d + 1) / 2) + Strip(line) + Spaces(d / 2)
    ensures var d := if VisibleWidth(line) >= width then 0 else width - VisibleWidth(line);
      Raw(r) == Spaces((d + 1) / 2) + Reset + Raw(line) + Reset + Spaces(d / 2)
  {
    var fenced := [Escape(Reset)] + line + [Escape(Reset)];
    var d := if VisibleWidth(line) >= width then 0 else width - VisibleWidth(line);
    var r := PlainText(Spaces((d + 1) / 2)) + fenced + PlainText(Spaces(d / 2));
    PaddedParts(PlainText(Spaces((d + 1) / 2)), line, PlainText(Spaces(d / 2)));
    StripPlainText(Spaces((d + 1) / 2));
    StripPlainText(Spaces(d / 2));
    RawPlainText(Spaces((d + 1) / 2));
    RawPlainText(Spaces(d / 2));
    r
  }

  lemma PaddedParts(left: Message, line: Message, right: Message)
    ensures Strip(left + ([Escape(Reset)] + line + [Escape(Reset)]) + right) == Strip(left) + Strip(line) + Strip(right)
    ensures Raw(left + ([Escape(Reset)] + line + [Escape(Reset)]) + right) == Raw(left) + Reset + Raw(line) + Reset + Raw(right)
  {
    PaddedStrip(left, line, right);
    PaddedRaw(left, line, right);
  }

  lemma PaddedStrip(left: Message, line: Message, right: Message)
    ensures Strip(left + ([Escape(Reset)] + line + [Escape(Reset)]) + right) == Strip(left) + Strip(line) + Strip(right)
  {
    var fenced := [Escape(Reset)] + line + [Escape(Reset)];
    var lf := left + fenced;
    FencedStrip(line);
    StripAppend(left, fenced);
    assert Strip(lf) == Strip(left) + Strip(line);
    StripAppend(lf, right);
  }

  lemma PaddedRaw(left: Message, line: Message, right: Message)
    ensures Raw(left + ([Escape(Reset)] + line + [Escape(Reset)]) + right) == Raw(left) + Reset + Raw(line) + Reset + Raw(right)
  {
    var fenced := [Escape(Reset)] + line + [Escape(Reset)];
    var lf := left + fenced;
    FencedRaw(line);
    RawAppend(left, fenced);
    assert Raw(lf) == Raw(left) + Reset + Raw(line) + Reset;
    RawAppend(lf, right);
  }

  lemma FencedStrip(line: Message)
    ensures Strip([Escape(Reset)] + line + [Escape(Reset)]) == Strip(line)
  {
    var e := [Escape(Reset)];
    assert Strip(e) == [] by { assert e[..0] == []; }
    StripAppend(e, line);
    StripAppend(e + line, e);
  }

  lemma FencedRaw(line: Message)
    ensures Raw([Escape(Reset)] + line + [Escape(Reset)]) == Reset + Raw(line) + Reset
  {
    var e := [Escape(Reset)];
    assert Raw(e) == Reset by { assert e[..0] == []; }
    RawAppend(e, line);
    RawAppend(e + line, e);
  }
}
