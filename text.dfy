/** Text primitives the renderer relies on: messages read as visible
    characters and escape sequences, JavaScript's `trim`, `split` and `join`,
    and the left padding of pad-component. */
module Text {

  datatype Option<T> = None | Some(value: T)

  /** A message as the ANSI escape pattern splits it: a visible character,
      or one matched escape sequence kept whole. */
  datatype Token = Plain(c: char) | Escape(text: string)

  type Message = seq<Token>

  /** Characters that `.` in a regular expression does not match. */
  predicate IsLineTerminator(c: char)
  {
    c == '\n' || c == '\r' || c == '\U{2028}' || c == '\U{2029}'
  }

  /** ECMAScript white space and line terminators: what `trim` removes and
      what `\s` matches. */
  predicate IsWhitespace(c: char)
  {
    || IsLineTerminator(c)
    || c == '\t' || c == '\U{B}' || c == '\U{C}' || c == ' '
    || c == '\U{A0}' || c == '\U{1680}' || ('\U{2000}' <= c <= '\U{200A}')
    || c == '\U{202F}' || c == '\U{205F}' || c == '\U{3000}' || c == '\U{FEFF}'
  }

  /** A visible white-space character; escape sequences start and end with
      non-white-space characters, so `trim` never removes any of them. */
  predicate IsBlankToken(t: Token)
  {
    t.Plain? && IsWhitespace(t.c)
  }

  function TokenText(t: Token): string
  {
    match t
    case Plain(c) => [c]
    case Escape(text) => text
  }

  /** The text as written, escapes included. */
  function Raw(msg: Message): string
  {
    if msg == [] then [] else Raw(msg[..|msg| - 1]) + TokenText(msg[|msg| - 1])
  }

  /** What strip-ansi leaves: the visible characters only. */
  function Strip(msg: Message): string
  {
    if msg == [] then []
    else Strip(msg[..|msg| - 1]) + (if msg[|msg| - 1].Plain? then [msg[|msg| - 1].c] else [])
  }

  /** Total length of the escape sequences of a message. */
  function EscapeLength(msg: Message): nat
  {
    if msg == [] then 0
    else EscapeLength(msg[..|msg| - 1]) + (if msg[|msg| - 1].Escape? then |msg[|msg| - 1].text| else 0)
  }

  /** The number of columns string-width reports, one per visible character. */
  function VisibleWidth(msg: Message): nat
  {
    |Strip(msg)|
  }

  function PlainText(s: string): (msg: Message)
  {
    seq(|s|, i requires 0 <= i < |s| => Plain(s[i]))
  }

  lemma {:induction false} RawIsStripPlusEscapes(msg: Message)
    ensures |Raw(msg)| == |Strip(msg)| + EscapeLength(msg)
  {
    if msg != [] {
      RawIsStripPlusEscapes(msg[..|msg| - 1]);
    }
  }

  lemma {:induction false} StripAppend(a: Message, b: Message)
    ensures Strip(a + b) == Strip(a) + Strip(b)
    decreases |b|
  {
    if b == [] {
      assert a + b == a;
    } else {
      var b' := b[..|b| - 1];
      assert (a + b)[..|a + b| - 1] == a + b';
      StripAppend(a, b');
    }
  }

  lemma {:induction false} RawAppend(a: Message, b: Message)
    ensures Raw(a + b) == Raw(a) + Raw(b)
    decreases |b|
  {
    if b == [] {
      assert a + b == a;
    } else {
      var b' := b[..|b| - 1];
      var last := b[|b| - 1];
      assert (a + b)[..|a + b| - 1] == a + b';
      assert (a + b)[|a + b| - 1] == last;
      calc {
        Raw(a + b);
        Raw(a + b') + TokenText(last);
        { RawAppend(a, b'); }
        Raw(a) + Raw(b') + TokenText(last);
        Raw(a) + (Raw(b') + TokenText(last));
      }
    }
  }

  lemma {:induction false} RawPlainText(s: string)
    ensures Raw(PlainText(s)) == s
  {
    if s != [] {
      assert PlainText(s)[..|s| - 1] == PlainText(s[..|s| - 1]);
      RawPlainText(s[..|s| - 1]);
    }
  }

  lemma {:induction false} StripPlainText(s: string)
    ensures Strip(PlainText(s)) == s
  {
    if s != [] {
      assert PlainText(s)[..|s| - 1] == PlainText(s[..|s| - 1]);
      StripPlainText(s[..|s| - 1]);
    }
  }

  function Spaces(n: nat): (s: string)
  {
    seq(n, _ => ' ')
  }

  /** pad-component's `pad.left`: spaces in front up to `len` characters. */
  function PadLeft(s: string, len: int): (r: string)
    ensures |r| == if |s| >= len then |s| else len
    ensures r[|r| - |s|..] == s
    ensures forall i :: 0 <= i < |r| - |s| ==> r[i] == ' '
  {
    if |s| >= len then s else Spaces(len - |s|) + s
  }

  // ---- trim --------------------------------------------------------------

  /** Number of leading elements that `ws` holds of. */
  function LeadingCount<T>(s: seq<T>, ws: T -> bool): (k: nat)
    ensures k <= |s|
    ensures forall i :: 0 <= i < k ==> ws(s[i])
    ensures k < |s| ==> !ws(s[k])
  {
    if s == [] || !ws(s[0]) then 0 else 1 + LeadingCount(s[1..], ws)
  }

  /** Number of trailing elements that `ws` holds of. */
  function TrailingCount<T>(s: seq<T>, ws: T -> bool): (k: nat)
    ensures k <= |s|
    ensures forall i :: |s| - k <= i < |s| ==> ws(s[i])
    ensures k < |s| ==> !ws(s[|s| - 1 - k])
  {
    if s == [] || !ws(s[|s| - 1]) then 0 else 1 + TrailingCount(s[..|s| - 1], ws)
  }

  /** `trim`: the longest middle part that neither starts nor ends with an
      element `ws` holds of; everything cut off on either side is such an
      element. */
  function Trim<T>(s: seq<T>, ws: T -> bool): (r: seq<T>)
    ensures LeadingCount(s, ws) + |r| <= |s|
    ensures r == s[LeadingCount(s, ws)..LeadingCount(s, ws) + |r|]
    ensures forall i :: LeadingCount(s, ws) + |r| <= i < |s| ==> ws(s[i])
    ensures r == [] || (!ws(r[0]) && !ws(r[|r| - 1]))
  {
    var a := LeadingCount(s, ws);
    var rest := s[a..];
    var b := TrailingCount(rest, ws);
    assert forall i :: a + |rest| - b <= i < |s| ==> s[i] == rest[i - a];
    rest[..|rest| - b]
  }

  lemma TrimIdle<T>(s: seq<T>, ws: T -> bool)
    requires s == [] || (!ws(s[0]) && !ws(s[|s| - 1]))
    ensures Trim(s, ws) == s
  {
    if s != [] {
      assert LeadingCount(s, ws) == 0;
      assert TrailingCount(s, ws) == 0;
    }
  }

  // ---- split and join ----------------------------------------------------

  /** `parts.join(sep)`. */
  function Join(parts: seq<string>, sep: string): string
  {
    if |parts| == 0 then [] else if |parts| == 1 then parts[0] else parts[0] + sep + Join(parts[1..], sep)
  }

  /** `s.split(sep)` for a one-character separator: the pieces between the
      separators, never fewer than one. */
  function Split(s: string, sep: char): (parts: seq<string>)
    ensures |parts| >= 1
    ensures forall k :: 0 <= k < |parts| ==> sep !in parts[k]
    ensures Join(parts, [sep]) == s
    decreases |s|
  {
    if s == [] then [[]]
    else
      var rest := Split(s[1..], sep);
      if s[0] == sep then
        assert Join([[]] + rest, [sep]) == [sep] + Join(rest, [sep]) by {
          assert ([[]] + rest)[1..] == rest;
        }
        [[]] + rest
      else
        var parts := [[s[0]] + rest[0]] + rest[1..];
        assert Join(parts, [sep]) == [s[0]] + Join(rest, [sep]) by {
          if |rest| > 1 {
            assert parts[1..] == rest[1..];
          }
        }
        parts
  }

  lemma {:induction false} SplitAfterPiece(a: string, b: string, sep: char)
    requires sep !in a
    ensures Split(a + [sep] + b, sep) == [a] + Split(b, sep)
    decreases |a|
  {
    if a == [] {
      assert a + [sep] + b == [sep] + b;
      assert ([sep] + b)[1..] == b;
    } else {
      assert (a + [sep] + b)[1..] == a[1..] + [sep] + b;
      SplitAfterPiece(a[1..], b, sep);
      assert [a[0]] + a[1..] == a;
    }
  }

  lemma {:induction false} SplitPiece(a: string, sep: char)
    requires sep !in a
    ensures Split(a, sep) == [a]
    decreases |a|
  {
    if a != [] {
      SplitPiece(a[1..], sep);
      assert [a[0]] + a[1..] == a;
    }
  }

  /** Splitting undoes joining, as long as no piece holds the separator. */
  lemma {:induction false} SplitJoin(parts: seq<string>, sep: char)
    requires |parts| >= 1
    requires forall k :: 0 <= k < |parts| ==> sep !in parts[k]
    ensures Split(Join(parts, [sep]), sep) == parts
    decreases |parts|
  {
    if |parts| == 1 {
      SplitPiece(parts[0], sep);
    } else {
      SplitJoin(parts[1..], sep);
      SplitAfterPiece(parts[0], Join(parts[1..], [sep]), sep);
      assert [parts[0]] + parts[1..] == parts;
    }
  }

  /** `toLowerCase` on the ASCII letters. */
  function Lower(s: string): (r: string)
  {
    seq(|s|, i requires 0 <= i < |s| => if 'A' <= s[i] <= 'Z' then (s[i] as int + 32) as char else s[i])
  }

  /** Lower-casing works character by character. */
  lemma LowerCons(c: char, s: string)
    ensures Lower([c] + s) == Lower([c]) + Lower(s)
  {
  }

  /** Lower-casing keeps every space-separated word in place. */
  lemma {:induction false} SplitLower(s: string)
    ensures |Split(Lower(s), ' ')| == |Split(s, ' ')|
    ensures forall k :: 0 <= k < |Split(s, ' ')| ==> Split(Lower(s), ' ')[k] == Lower(Split(s, ' ')[k])
    decreases |s|
  {
    if s != [] {
      var c := Lower([s[0]]);
      SplitLower(s[1..]);
      assert s == [s[0]] + s[1..];
      LowerCons(s[0], s[1..]);
      var l := Lower(s);
      assert l == c + Lower(s[1..]) && |c| == 1;
      assert l[0] == c[0] && l[1..] == Lower(s[1..]);
      var rest := Split(s[1..], ' ');
      var lrest := Split(l[1..], ' ');
      if s[0] != ' ' {
        assert c[0] != ' ';
        LowerCons(s[0], rest[0]);
        forall k | 0 <= k < |Split(s, ' ')|
          ensures Split(l, ' ')[k] == Lower(Split(s, ' ')[k])
        {
          if k == 0 {
            assert [l[0]] == c;
          }
        }
      } else {
        assert c[0] == ' ';
      }
    }
  }
}
