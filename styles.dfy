/** Where the message's escape sequences sit in its visible text, and how
    they are put back in front of the characters of each wrapped line. */
module Styles {
  import opened Text

  // ---- Object.keys order of integer keys --------------------------------

  predicate IsLeast(m: nat, s: set<nat>)
  {
    m in s && forall k :: k in s ==> m <= k
  }

  predicate IsGreatest(g: nat, s: set<nat>)
  {
    g in s && forall k :: k in s ==> k <= g
  }

  /** Every non-empty set of naturals has a least element: remove any
      element, take the least of the rest, and compare. */
  lemma {:induction false} LeastExists(s: set<nat>)
    requires s != {}
    ensures exists m :: IsLeast(m, s)
    decreases s
  {
    var x :| x in s;
    if s == {x} {
      assert IsLeast(x, s);
    } else {
      LeastExists(s - {x});
      var m' :| IsLeast(m', s - {x});
      var m := if x < m' then x else m';
      forall k | k in s ensures m <= k {
        if k != x { assert k in s - {x}; }
      }
      assert IsLeast(m, s);
    }
  }

  /** Every non-empty finite set of naturals has a greatest element. */
  lemma {:induction false} GreatestExists(s: set<nat>)
    requires s != {}
    ensures exists g :: IsGreatest(g, s)
    decreases s
  {
    var x :| x in s;
    if s == {x} {
      assert IsGreatest(x, s);
    } else {
      GreatestExists(s - {x});
      var g' :| IsGreatest(g', s - {x});
      var g := if x > g' then x else g';
      forall k | k in s ensures k <= g {
        if k != x { assert k in s - {x}; }
      }
      assert IsGreatest(g, s);
    }
  }

  /** The least element, as a program can compute it. */
  function Least(s: set<nat>): (m: nat)
    requires s != {}
    ensures m in s && forall k :: k in s ==> m <= k
  {
    LeastExists(s);
    var m :| IsLeast(m, s); m
  }

  ghost function Greatest(s: set<nat>): (g: nat)
    requires s != {}
    ensures g in s && forall k :: k in s ==> k <= g
  {
    GreatestExists(s);
    var g :| IsGreatest(g, s); g
  }

  /** `Object.keys` of an object whose keys are array indices: every key
      once, in ascending order. */
  function SortedKeys(s: set<nat>): (ks: seq<nat>)
    ensures forall k :: k in s <==> k in ks
    ensures forall i, j :: 0 <= i < j < |ks| ==> ks[i] < ks[j]
    decreases s
  {
    if s == {} then []
    else
      var m := Least(s);
      var rest := SortedKeys(s - {m});
      assert forall j :: 0 <= j < |rest| ==> rest[j] in s - {m};
      [m] + rest
  }

  // ---- lengths of the stored texts --------------------------------------

  /** Total length of the texts a style map holds. */
  function MapSum(m: map<nat, string>): nat
    decreases m.Keys
  {
    if m.Keys == {} then 0
    else
      var k := Least(m.Keys);
      assert (m - {k}).Keys < m.Keys;
      |m[k]| + MapSum(m - {k})
  }

  lemma {:induction false} MapSumRemove(m: map<nat, string>, k: nat)
    requires k in m
    ensures MapSum(m) == |m[k]| + MapSum(m - {k})
    decreases m.Keys
  {
    var least := Least(m.Keys);
    if k != least {
      assert (m - {least}).Keys < m.Keys;
      MapSumRemove(m - {least}, k);
      assert least in (m - {k}).Keys;
      assert Least((m - {k}).Keys) == least;
      assert m - {least} - {k} == m - {k} - {least};
    }
  }

  lemma MapSumUpdate(m: map<nat, string>, k: nat, v: string)
    ensures MapSum(m[k := v]) == MapSum(m) - (if k in m then |m[k]| else 0) + |v|
  {
    MapSumRemove(m[k := v], k);
    assert m[k := v] - {k} == m - {k};
    if k in m {
      MapSumRemove(m, k);
    } else {
      assert m - {k} == m;
    }
  }

  /** Total length of the texts stored under the keys `ks`. */
  function KeyedLength(m: map<nat, string>, ks: seq<nat>): nat
    requires forall i :: 0 <= i < |ks| ==> ks[i] in m
  {
    if ks == [] then 0 else |m[ks[0]]| + KeyedLength(m, ks[1..])
  }

  lemma {:induction false} KeyedLengthAppend(m: map<nat, string>, ks: seq<nat>, k: nat)
    requires forall i :: 0 <= i < |ks| ==> ks[i] in m
    requires k in m
    ensures KeyedLength(m, ks + [k]) == KeyedLength(m, ks) + |m[k]|
    decreases |ks|
  {
    if ks != [] {
      assert (ks + [k])[1..] == ks[1..] + [k];
      KeyedLengthAppend(m, ks[1..], k);
    }
  }

  lemma {:induction false} KeyedLengthFrame(m: map<nat, string>, m': map<nat, string>, ks: seq<nat>)
    requires forall i :: 0 <= i < |ks| ==> ks[i] in m && ks[i] in m' && m[ks[i]] == m'[ks[i]]
    ensures KeyedLength(m, ks) == KeyedLength(m', ks)
    decreases |ks|
  {
    if ks != [] {
      KeyedLengthFrame(m, m', ks[1..]);
    }
  }

  /** Summing over the keys in `Object.keys` order gives the map's total. */
  lemma {:induction false} KeyedLengthSorted(m: map<nat, string>)
    ensures KeyedLength(m, SortedKeys(m.Keys)) == MapSum(m)
    decreases m.Keys
  {
    if m.Keys != {} {
      var k := Least(m.Keys);
      var m' := m - {k};
      assert m'.Keys == m.Keys - {k};
      var rest := SortedKeys(m'.Keys);
      assert SortedKeys(m.Keys) == [k] + rest;
      KeyedLengthSorted(m');
      KeyedLengthStep(m, k, rest);
    }
  }

  lemma KeyedLengthStep(m: map<nat, string>, k: nat, rest: seq<nat>)
    requires k in m && forall i :: 0 <= i < |rest| ==> rest[i] in m && rest[i] != k
    ensures KeyedLength(m, [k] + rest) == |m[k]| + KeyedLength(m - {k}, rest)
  {
    assert ([k] + rest)[1..] == rest;
    KeyedLengthFrame(m, m - {k}, rest);
  }

  // ---- extraction ---------------------------------------------------------

  /** One escape sequence and the number of visible characters before it. */
  datatype Run = Run(at: nat, text: string)

  /** The message's escape sequences in order, each anchored at its offset
      in the visible text. */
  function Runs(msg: Message): (rs: seq<Run>)
    ensures forall j :: 0 <= j < |rs| ==> rs[j].at <= |Strip(msg)|
    ensures forall i, j :: 0 <= i < j < |rs| ==> rs[i].at <= rs[j].at
  {
    if msg == [] then []
    else
      var init := msg[..|msg| - 1];
      Runs(init) + (if msg[|msg| - 1].Escape? then [Run(|Strip(init)|, msg[|msg| - 1].text)] else [])
  }

  function Anchors(rs: seq<Run>): set<nat>
  {
    set r | r in rs :: r.at
  }

  /** The texts of the runs anchored at `k`, concatenated in order. */
  function TextsAt(rs: seq<Run>, k: nat): string
  {
    if rs == [] then []
    else TextsAt(rs[..|rs| - 1], k) + (if rs[|rs| - 1].at == k then rs[|rs| - 1].text else [])
  }

  lemma {:induction false} TextsAtAbsent(rs: seq<Run>, k: nat)
    requires k !in Anchors(rs)
    ensures TextsAt(rs, k) == []
  {
    if rs != [] {
      assert Anchors(rs[..|rs| - 1]) <= Anchors(rs) by {
        forall a | a in Anchors(rs[..|rs| - 1]) ensures a in Anchors(rs) {
          var r :| r in rs[..|rs| - 1] && r.at == a;
          assert r in rs;
        }
      }
      TextsAtAbsent(rs[..|rs| - 1], k);
      assert rs[|rs| - 1] in rs;
    }
  }

  /** `styledIndexes` as index.js:85-91 leaves it: each escape stored under
      its visible-text offset, appended to what is already stored there. */
  function StyleMap(msg: Message): map<nat, string>
  {
    if msg == [] then map[]
    else
      var init := msg[..|msg| - 1];
      var m := StyleMap(init);
      match msg[|msg| - 1]
      case Plain(_) => m
      case Escape(text) =>
        var k := |Strip(init)|;
        m[k := if k in m && m[k] != [] then m[k] + text else text]
  }

  lemma AnchorsSnoc(rs: seq<Run>, r: Run)
    ensures Anchors(rs + [r]) == Anchors(rs) + {r.at}
  {
    forall a ensures a in Anchors(rs + [r]) <==> a in Anchors(rs) + {r.at} {
      if a in Anchors(rs + [r]) {
        var r' :| r' in rs + [r] && r'.at == a;
        if r' != r { assert r' in rs; }
      }
      if a in Anchors(rs) {
        var r' :| r' in rs && r'.at == a;
        assert r' in rs + [r];
      }
      assert r in rs + [r];
    }
  }

  lemma TextsAtSnoc(rs: seq<Run>, r: Run, k: nat)
    ensures TextsAt(rs + [r], k) == TextsAt(rs, k) + (if r.at == k then r.text else [])
  {
    assert (rs + [r])[..|rs|] == rs;
  }

  lemma RunsSnoc(msg: Message)
    requires msg != []
    ensures var init := msg[..|msg| - 1];
      Runs(msg) == Runs(init) + (if msg[|msg| - 1].Escape? then [Run(|Strip(init)|, msg[|msg| - 1].text)] else [])
  {
  }

  /** Storing one more run keeps the map grouped by anchor. */
  lemma GroupsStep(m: map<nat, string>, rs: seq<Run>, r: Run)
    requires m.Keys == Anchors(rs)
    requires forall k :: k in m ==> m[k] == TextsAt(rs, k)
    ensures var m' := m[r.at := if r.at in m && m[r.at] != [] then m[r.at] + r.text else r.text];
      m'.Keys == Anchors(rs + [r]) && forall k :: k in m' ==> m'[k] == TextsAt(rs + [r], k)
  {
    var m' := m[r.at := if r.at in m && m[r.at] != [] then m[r.at] + r.text else r.text];
    AnchorsSnoc(rs, r);
    forall k | k in m' ensures m'[k] == TextsAt(rs + [r], k) {
      TextsAtSnoc(rs, r, k);
      if k == r.at {
        if r.at !in m {
          TextsAtAbsent(rs, k);
        }
        assert [] + r.text == r.text;
      }
    }
  }

  /** The map holds one entry per anchor offset, and under it the texts of
      the escapes anchored there, in the order they were met. */
  lemma {:induction false} StyleMapGroupsRuns(msg: Message)
    ensures StyleMap(msg).Keys == Anchors(Runs(msg))
    ensures forall k :: k in StyleMap(msg) ==> StyleMap(msg)[k] == TextsAt(Runs(msg), k)
  {
    if msg != [] {
      var init := msg[..|msg| - 1];
      StyleMapGroupsRuns(init);
      RunsSnoc(msg);
      var m := StyleMap(init);
      var rs := Runs(init);
      match msg[|msg| - 1]
      case Plain(_) =>
        assert StyleMap(msg) == m;
        assert Runs(msg) == rs + [];
        assert rs + [] == rs;
      case Escape(text) =>
        var r := Run(|Strip(init)|, text);
        assert StyleMap(msg) == m[r.at := if r.at in m && m[r.at] != [] then m[r.at] + r.text else r.text];
        assert Runs(msg) == rs + [r];
        GroupsStep(m, rs, r);
    }
  }

  /** The stored texts add up to every escape sequence of the message. */
  lemma {:induction false} StyleMapLength(msg: Message)
    ensures MapSum(StyleMap(msg)) == EscapeLength(msg)
  {
    if msg != [] {
      var init := msg[..|msg| - 1];
      StyleMapLength(init);
      if msg[|msg| - 1].Escape? {
        var m := StyleMap(init);
        var k := |Strip(init)|;
        var text := msg[|msg| - 1].text;
        MapSumUpdate(m, k, if k in m && m[k] != [] then m[k] + text else text);
      }
    }
  }

  /** A message without escapes leaves the map empty. */
  lemma {:induction false} NoEscapesNoStyles(msg: Message)
    requires forall i :: 0 <= i < |msg| ==> msg[i].Plain?
    ensures StyleMap(msg) == map[]
  {
    if msg != [] {
      NoEscapesNoStyles(msg[..|msg| - 1]);
    }
  }

  /** index.js:86-88: the written offset of an escape, less the lengths of
      all texts stored so far, summed over the keys in `Object.keys` order. */
  method VisibleOffset(styled: map<nat, string>, written: nat) returns (offset: int)
    ensures offset == written - MapSum(styled)
  {
    var keys: seq<nat> := SortedKeys(styled.Keys);
    offset := SubtractLengths(styled, keys, written);
    KeyedLengthSorted(styled);
  }

  /** The loop of index.js:87: subtracts the length of the text stored
      under each key in turn. */
  method SubtractLengths(styled: map<nat, string>, keys: seq<nat>, written: int) returns (offset: int)
    requires forall i :: 0 <= i < |keys| ==> keys[i] in styled
    ensures offset == written - KeyedLength(styled, keys)
  {
    offset := written;
    var i := 0;
    while i < |keys|
      invariant 0 <= i <= |keys|
      invariant offset == written - KeyedLength(styled, keys[..i])
    {
      KeyedLengthAppend(styled, keys[..i], keys[i]);
      assert keys[..i + 1] == keys[..i] + [keys[i]];
      offset := offset - |styled[keys[i]]|;
      i := i + 1;
    }
    assert keys[..i] == keys;
  }

  /** index.js:86-90, the callback for one escape sequence `text` found
      at written offset `written` after the tokens `done`: the text is
      stored under the number of visible characters before it, after any
      text already stored there. */
  method RecordEscape(styled: map<nat, string>, written: nat, text: string, ghost done: Message) returns (styled': map<nat, string>)
    requires styled == StyleMap(done) && written == |Raw(done)|
    ensures styled' == StyleMap(done + [Escape(text)])
  {
    var offset := VisibleOffset(styled, written);
    StyleMapLength(done);
    RawIsStripPlusEscapes(done);
    var key: nat := offset;
    assert key == |Strip(done)|;
    assert (done + [Escape(text)])[..|done|] == done;
    styled' := styled[key := if key in styled && styled[key] != [] then styled[key] + text else text];
  }

  /** One more token adds its text to what is written, and a visible
      character leaves the map as it was. */
  lemma TokenStep(done: Message, token: Token)
    ensures Raw(done + [token]) == Raw(done) + TokenText(token)
    ensures token.Plain? ==> StyleMap(done + [token]) == StyleMap(done)
  {
    assert (done + [token])[..|done|] == done;
  }

  /** index.js:85-91: every escape, in order, stored under its written
      offset less the lengths of everything stored before it. */
  method ExtractStyles(msg: Message) returns (styled: map<nat, string>)
    ensures styled == StyleMap(msg)
  {
    styled := map[];
    var written := 0;
    var t := 0;
    while t < |msg|
      invariant 0 <= t <= |msg|
      invariant written == |Raw(msg[..t])|
      invariant styled == StyleMap(msg[..t])
    {
      ghost var done := msg[..t];
      var token := msg[t];
      assert msg[..t + 1] == done + [token];
      TokenStep(done, token);
      if token.Escape? {
        styled := RecordEscape(styled, written, token.text, done);
      }
      written := written + |TokenText(token)|;
      t := t + 1;
    }
    assert msg[..t] == msg;
  }

  // ---- reinsertion ----------------------------------------------------------

  ghost function Below(m: map<nat, string>, c: nat): set<nat>
  {
    set k | k in m && k < c
  }

  /** index.js:111-123 count `hasContinuedStyle` up to 2 or more exactly
      when two anchors lie below the character, or one below and one
      above it. */
  ghost predicate Continues(m: map<nat, string>, c: nat)
  {
    || (exists a, b :: a in m && b in m && a < b < c)
    || ((exists a :: a in m && a < c) && (exists b :: b in m && c < b))
  }

  lemma ContinuesHasBelow(m: map<nat, string>, c: nat)
    requires Continues(m, c)
    ensures Below(m, c) != {}
  {
    var a :| a in m && a < c;
    assert a in Below(m, c);
  }

  /** The anchor whose text goes in front of the character at visible
      offset `c`: its own, else (when the style continues) the nearest one
      below it, else none. A text is only ever carried forward, and never
      across another anchor. */
  ghost function Anchor(m: map<nat, string>, c: nat): Option<nat>
  {
    if c in m && m[c] != [] then Some(c)
    else if Continues(m, c) then
      ContinuesHasBelow(m, c);
      Some(Greatest(Below(m, c)))
    else None
  }

  /** The anchor is a key at or below the character and no key lies
      between the two; the character's own text always wins; and there is
      no anchor only when the character has no text and the style does not
      continue. */
  lemma AnchorSpec(m: map<nat, string>, c: nat)
    ensures var a := Anchor(m, c);
      && (a.Some? ==> a.value in m && a.value <= c)
      && (a.Some? ==> forall k :: k in m && k < c ==> k <= a.value)
      && (c in m && m[c] != [] ==> a == Some(c))
      && (a.None? <==> !(c in m && m[c] != []) && !Continues(m, c))
  {
    if !(c in m && m[c] != []) && Continues(m, c) {
      ContinuesHasBelow(m, c);
      assert forall k :: k in m && k < c ==> k in Below(m, c);
    }
  }

  ghost function Prefix(m: map<nat, string>, c: nat): string
  {
    match Anchor(m, c)
    case Some(k) => m[k]
    case None => []
  }

  /** A message with a single anchor never has its text repeated. */
  lemma SingleAnchorNotCarried(m: map<nat, string>, x: nat, c: nat)
    requires m.Keys == {x}
    ensures Anchor(m, c) == if c == x && m[x] != [] then Some(x) else None
  {
    assert forall a :: a in m ==> a == x;
  }

  /** `ks` lists the keys of `m`, each once, in ascending order: what
      `Object.keys` gives for an object whose keys are array indices. */
  ghost predicate AscendingKeys(m: map<nat, string>, ks: seq<nat>)
  {
    && (forall k :: k in m <==> k in ks)
    && (forall i, j :: 0 <= i < j < |ks| ==> ks[i] < ks[j])
  }

  /** Index of the first key at or above `c` in ascending keys. */
  ghost function FirstAtLeast(ks: seq<nat>, c: nat): (p: nat)
    requires forall i, j :: 0 <= i < j < |ks| ==> ks[i] < ks[j]
    ensures p <= |ks|
    ensures forall j :: 0 <= j < |ks| ==> (ks[j] < c <==> j < p)
  {
    if ks == [] || ks[0] >= c then 0 else 1 + FirstAtLeast(ks[1..], c)
  }

  /** At most one key sits exactly at `c`. */
  lemma FirstAtLeastStep(ks: seq<nat>, c: nat)
    requires forall i, j :: 0 <= i < j < |ks| ==> ks[i] < ks[j]
    ensures FirstAtLeast(ks, c) <= FirstAtLeast(ks, c + 1) <= FirstAtLeast(ks, c) + 1
  {
    var p := FirstAtLeast(ks, c);
    if p > 0 {
      assert ks[p - 1] < c + 1;
    }
    if p + 1 < |ks| {
      assert c <= ks[p] < ks[p + 1];
    }
  }

  lemma TwoBelow(m: map<nat, string>, ks: seq<nat>, c: nat)
    requires AscendingKeys(m, ks)
    ensures (exists a, b :: a in m && b in m && a < b < c) <==> FirstAtLeast(ks, c) >= 2
  {
    var p := FirstAtLeast(ks, c);
    if p >= 2 {
      assert ks[0] in m && ks[1] in m && ks[0] < ks[1] < c;
    } else {
      forall a, b | a in m && b in m && a < b ensures b >= c {
        var ib :| 0 <= ib < |ks| && ks[ib] == b;
      }
    }
  }

  lemma OneBelow(m: map<nat, string>, ks: seq<nat>, c: nat)
    requires AscendingKeys(m, ks)
    ensures (exists a :: a in m && a < c) <==> FirstAtLeast(ks, c) >= 1
  {
    if exists a :: a in m && a < c {
      var a :| a in m && a < c;
      var ia :| 0 <= ia < |ks| && ks[ia] == a;
    }
    if FirstAtLeast(ks, c) >= 1 {
      assert ks[0] in m;
    }
  }

  lemma OneAbove(m: map<nat, string>, ks: seq<nat>, c: nat)
    requires AscendingKeys(m, ks)
    ensures (exists b :: b in m && c < b) <==> FirstAtLeast(ks, c + 1) < |ks|
  {
    var q := FirstAtLeast(ks, c + 1);
    if exists b :: b in m && c < b {
      var b :| b in m && c < b;
      var ib :| 0 <= ib < |ks| && ks[ib] == b;
    }
    if q < |ks| {
      assert ks[q] in m;
    }
  }

  lemma NearestBelow(m: map<nat, string>, ks: seq<nat>, c: nat)
    requires AscendingKeys(m, ks)
    requires FirstAtLeast(ks, c) >= 1
    ensures ks[FirstAtLeast(ks, c) - 1] in Below(m, c)
    ensures forall k :: k in Below(m, c) ==> k <= ks[FirstAtLeast(ks, c) - 1]
  {
    var p := FirstAtLeast(ks, c);
    var g := ks[p - 1];
    assert g in m;
    forall k | k in Below(m, c) ensures k <= g {
      var j :| 0 <= j < |ks| && ks[j] == k;
      assert j < p;
    }
  }

  /** `Continues` and the nearest anchor below, read off the ascending
      keys: `p` keys lie below `c` and `q` at or below it. */
  lemma ContinuesByKeys(m: map<nat, string>, c: nat, ks: seq<nat>, p: nat, q: nat)
    requires AscendingKeys(m, ks)
    requires p == FirstAtLeast(ks, c) && q == FirstAtLeast(ks, c + 1)
    ensures Continues(m, c) <==> (p >= 2 || (p >= 1 && q < |ks|))
  {
    TwoBelow(m, ks, c);
    OneBelow(m, ks, c);
    OneAbove(m, ks, c);
  }

  lemma GreatestIs(s: set<nat>, g: nat)
    requires g in s && forall k :: k in s ==> k <= g
    ensures Greatest(s) == g
  {
  }


  /** The text of the nearest key below `c`, read off the ascending keys. */
  lemma NearestStyle(m: map<nat, string>, c: nat, keys: seq<nat>, p: nat)
    requires AscendingKeys(m, keys)
    requires p == FirstAtLeast(keys, c) && p >= 1
    ensures Below(m, c) != {} && m[Greatest(Below(m, c))] == m[keys[p - 1]]
  {
    NearestBelow(m, keys, c);
    GreatestIs(Below(m, c), keys[p - 1]);
  }

  /** index.js:114-123: walk the ascending keys, counting
      `hasContinuedStyle` (each key below `c`, plus one for the first key
      above `c` when exactly one lies below) and remembering the text of
      the last key below `c`. With `p` keys below `c` and `q` at or below
      it, the count is `p`, or 2 when exactly one key lies below and one
      above. */
  method CountKeys(m: map<nat, string>, keys: seq<nat>, c: nat) returns (continued: nat, continuedStyle: string)
    requires AscendingKeys(m, keys)
    ensures var p := FirstAtLeast(keys, c);
      continued == if p == 1 && FirstAtLeast(keys, c + 1) < |keys| then 2 else p
    ensures var p := FirstAtLeast(keys, c);
      p >= 1 ==> continuedStyle == m[keys[p - 1]]
  {
    ghost var p := FirstAtLeast(keys, c);
    ghost var q := FirstAtLeast(keys, c + 1);
    FirstAtLeastStep(keys, c);
    continued := 0;
    continuedStyle := [];
    var i := 0;
    while i < |keys|
      invariant 0 <= i <= |keys|
      invariant continued == if i <= p then i else if p == 1 && i > q then 2 else p
      invariant 0 < i <= p ==> continuedStyle == m[keys[i - 1]]
      invariant 0 < p < i ==> continuedStyle == m[keys[p - 1]]
    {
      var key := keys[i];
      assert key < c <==> i < p;
      assert key <= c <==> i < q;
      if c > key {
        continued := continued + 1;
        continuedStyle := m[key];
      }
      if continued == 1 && c < key {
        continued := continued + 1;
      }
      i := i + 1;
    }
  }

  /** index.js:111-124 for the character at visible offset `c`: the count
      reaches 2 exactly when the style continues, and the text remembered
      is then that of the nearest anchor below. */
  method CountContinued(m: map<nat, string>, c: nat) returns (continued: nat, continuedStyle: string)
    ensures continued >= 2 <==> Continues(m, c)
    ensures continued >= 2 ==> Below(m, c) != {} && continuedStyle == m[Greatest(Below(m, c))]
  {
    var keys: seq<nat> := SortedKeys(m.Keys);
    assert AscendingKeys(m, keys);
    continued, continuedStyle := CountKeys(m, keys, c);
    ghost var p := FirstAtLeast(keys, c);
    ContinuesByKeys(m, c, keys, p, FirstAtLeast(keys, c + 1));
    if p >= 1 {
      NearestStyle(m, c, keys, p);
    }
  }

  /** index.js:111-131 for the character at visible offset `c`: count
      `hasContinuedStyle` over the keys, then choose the text to put in
      front. */
  method StylePrefix(m: map<nat, string>, c: nat) returns (prefix: string, continued: nat)
    ensures prefix == Prefix(m, c)
    ensures continued >= 2 <==> Continues(m, c)
  {
    var continuedStyle;
    continued, continuedStyle := CountContinued(m, c);
    if c in m && m[c] != [] {
      prefix := m[c];
    } else if continued >= 2 {
      prefix := continuedStyle;
    } else {
      prefix := [];
    }
  }

  /** What a character becomes: the text put in front of it, if any, then
      the character itself. */
  function Cell(prefix: string, ch: char): (cell: Message)
  {
    if prefix == [] then [Plain(ch)] else [Escape(prefix), Plain(ch)]
  }

  /** `/./g` does not visit line terminators, so they never get a text. */
  ghost function CharPrefix(m: map<nat, string>, c: nat, ch: char): string
  {
    if IsLineTerminator(ch) then [] else Prefix(m, c)
  }

  /** The text put in front of each character of a line whose character
      at index `j` sits at visible offset `start + j`. */
  ghost function Prefixes(line: string, m: map<nat, string>, start: nat): (ps: seq<string>)
    ensures |ps| == |line|
  {
    seq(|line|, j requires 0 <= j < |line| => CharPrefix(m, start + j, line[j]))
  }

  /** A line rebuilt character by character, each preceded by its text. */
  function Rebuilt(line: string, ps: seq<string>): Message
    requires |ps| == |line|
  {
    if line == [] then []
    else
      var j := |line| - 1;
      Rebuilt(line[..j], ps[..j]) + Cell(ps[j], line[j])
  }

  lemma StripCell(prefix: string, ch: char)
    ensures Strip(Cell(prefix, ch)) == [ch]
  {
    var cell := Cell(prefix, ch);
    if prefix == [] {
      assert cell[..0] == [];
      assert Strip(cell) == Strip(cell[..0]) + [ch];
    } else {
      assert cell[..1] == [Escape(prefix)];
      assert cell[..1][..0] == [];
      assert Strip(cell[..1]) == [];
      assert Strip(cell) == Strip(cell[..1]) + [ch];
    }
  }

  lemma StripCellAppend(init: Message, prefix: string, ch: char)
    ensures Strip(init + Cell(prefix, ch)) == Strip(init) + [ch]
  {
    StripAppend(init, Cell(prefix, ch));
    StripCell(prefix, ch);
  }

  /** Removing the texts put back gives the line itself. */
  lemma {:induction false} RebuiltStrip(line: string, ps: seq<string>)
    requires |ps| == |line|
    ensures Strip(Rebuilt(line, ps)) == line
  {
    if line != [] {
      var j := |line| - 1;
      RebuiltStrip(line[..j], ps[..j]);
      StripCellAppend(Rebuilt(line[..j], ps[..j]), ps[j], line[j]);
      assert line[..j] + [line[j]] == line;
    }
  }

  /** Every escape is directly followed by a visible character. */
  ghost predicate EscapesBeforeChars(r: Message)
  {
    forall i :: 0 <= i < |r| && r[i].Escape? ==> i + 1 < |r| && r[i + 1].Plain?
  }

  /** Each character gets at most one text, always directly before it. */
  lemma {:induction false} RebuiltShape(line: string, ps: seq<string>)
    requires |ps| == |line|
    ensures EscapesBeforeChars(Rebuilt(line, ps))
  {
    if line != [] {
      var j := |line| - 1;
      var r' := Rebuilt(line[..j], ps[..j]);
      var cell := Cell(ps[j], line[j]);
      RebuiltShape(line[..j], ps[..j]);
      var r := r' + cell;
      forall i | 0 <= i < |r| && r[i].Escape? ensures i + 1 < |r| && r[i + 1].Plain? {
        if i < |r'| {
          assert r[i] == r'[i];
          assert r[i + 1] == r'[i + 1];
        } else {
          assert r[i] == cell[i - |r'|];
          assert r[i + 1] == cell[1];
        }
      }
    }
  }

  /** The cell of the character at index `j` follows those of the
      characters before it. */
  lemma {:induction false} RebuiltCellAt(line: string, ps: seq<string>, j: nat)
    requires |ps| == |line| && j < |line|
    ensures Rebuilt(line[..j], ps[..j]) + Cell(ps[j], line[j]) <= Rebuilt(line, ps)
    decreases |line| - j
  {
    var n := |line| - 1;
    if j < n {
      RebuiltCellAt(line[..n], ps[..n], j);
      assert line[..n][..j] == line[..j];
      assert ps[..n][..j] == ps[..j];
    } else {
      assert line[..j] == line[..n];
    }
  }

  /** index.js:104-132 without the final trim: every character of the line,
      in order, with its text put back in front. */
  method RestyleLine(line: string, m: map<nat, string>, start: nat) returns (out: Message)
    ensures out == Rebuilt(line, Prefixes(line, m, start))
  {
    ghost var ps := Prefixes(line, m, start);
    out := [];
    var j := 0;
    while j < |line|
      invariant 0 <= j <= |line|
      invariant out == Rebuilt(line[..j], ps[..j])
    {
      assert line[..j + 1][..j] == line[..j];
      assert ps[..j + 1][..j] == ps[..j];
      var ch := line[j];
      var prefix: string := [];
      if !IsLineTerminator(ch) {
        var continued;
        prefix, continued := StylePrefix(m, start + j);
      }
      assert prefix == ps[j];
      out := out + Cell(prefix, ch);
      j := j + 1;
    }
    assert line[..j] == line;
    assert ps[..j] == ps;
  }

}
