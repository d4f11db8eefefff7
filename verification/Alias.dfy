/** Alias markers and their expansion for agents (shared/alias-types.ts, shared/alias-expand.ts).
    A `char` is one code point. */
module Alias {
  import opened Results
  import opened Text
  import opened Lists

  const ALIAS_NAME_MAX := 20
  const ALIAS_VALUE_MAX := 500
  const ALIAS_NOTE_HARD_MAX := 8000
  const ALIAS_LEGEND_NOTE_INLINE_MAX := 300

  // ---------------------------------------------------------------- names

  /** The Unicode tables: which characters are letters and numbers, and NFC normalisation. */
  datatype Unicode = Unicode(word: char -> bool, nfc: string -> string)

  predicate IsControl(c: char) {
    c < ' ' || '\U{7F}' <= c <= '\U{9F}'
  }

  /** `[\p{L}\p{N}._-]`. Letters and numbers are neither white space nor control characters nor any of the
      punctuation excluded here. */
  predicate IsNameChar(c: char, u: Unicode) {
    c == '.' || c == '_' || c == '-'
    || (u.word(c) && !IsJsSpace(c) && !IsControl(c) && c !in ";():/%#")
  }

  /** `isValidMarkerName`, on the normalised name. */
  predicate IsValidName(name: string, u: Unicode) {
    1 <= |name| <= ALIAS_NAME_MAX && forall i :: 0 <= i < |name| ==> IsNameChar(name[i], u)
  }

  /** A valid name has at most twenty characters, at least one, and each of them is a full stop, an underscore, a
      hyphen, or a letter or number. */
  lemma ValidNameIff(name: string, u: Unicode)
    ensures IsValidName(name, u) <==>
            0 < |name| <= 20
            && forall c :: c in name ==> c in "._-" || (u.word(c) && !IsJsSpace(c) && !IsControl(c) && c !in ";():/%#")
  {
    assert forall i :: 0 <= i < |name| ==> name[i] in name;
    hide IsJsSpace, IsControl;
  }

  // ---------------------------------------------------------------- the marker pattern

  /** One match of `;;\(([^()]*)\)`: where it starts and where it ends. */
  datatype Span = Span(start: nat, end: nat)

  predicate IsParen(c: char) {
    c == '(' || c == ')'
  }

  /** Position of the first parenthesis at or after `i`. */
  function ParenFrom(text: string, i: nat): (r: nat)
    requires i <= |text|
    ensures i <= r <= |text| && (r < |text| ==> IsParen(text[r]))
    ensures forall k :: i <= k < r ==> !IsParen(text[k])
    decreases |text| - i
  {
    if i == |text| || IsParen(text[i]) then i else ParenFrom(text, i + 1)
  }

  /** What the pattern matches: an opening, a run without parentheses, and the closing parenthesis. */
  ghost predicate IsMatch(text: string, m: Span) {
    && m.start + 4 <= m.end <= |text|
    && text[m.start] == ';' && text[m.start + 1] == ';' && text[m.start + 2] == '('
    && (forall k :: m.start + 3 <= k < m.end - 1 ==> !IsParen(text[k]))
    && text[m.end - 1] == ')'
  }

  /** End of the match that starts at `i`, or None. */
  function MatchAt(text: string, i: nat): (r: Option<nat>)
    requires i <= |text|
    ensures r.Some? <==> exists end :: IsMatch(text, Span(i, end))
    ensures r.Some? ==> IsMatch(text, Span(i, r.value)) && forall end :: IsMatch(text, Span(i, end)) ==> end == r.value
  {
    if i + 4 <= |text| && text[i] == ';' && text[i + 1] == ';' && text[i + 2] == '(' then
      var k := ParenFrom(text, i + 3);
      assert forall end :: IsMatch(text, Span(i, end)) ==> end == k + 1;
      if k < |text| && text[k] == ')' then
        assert IsMatch(text, Span(i, k + 1));
        Some(k + 1)
      else None
    else
      assert forall end :: !IsMatch(text, Span(i, end));
      None
  }

  /** The matches a global regular expression visits: scanning left to right, resuming after each match. */
  function Matches(text: string, i: nat): seq<Span>
    requires i <= |text|
    decreases |text| - i
  {
    if i == |text| then []
    else
      var m := MatchAt(text, i);
      if m.None? then Matches(text, i + 1) else [Span(i, m.value)] + Matches(text, m.value)
  }

  /** Spans from `from` on, each one starting where its predecessor has ended. */
  ghost predicate InOrder(from: nat, spans: seq<Span>, size: nat)
    decreases |spans|
  {
    if spans == [] then from <= size
    else from <= spans[0].start < spans[0].end <= size && InOrder(spans[0].end, spans[1..], size)
  }

  /** All the places from `from` on where the pattern matches, left to right and disjoint. */
  ghost predicate IsMatchList(text: string, from: nat, spans: seq<Span>) {
    InOrder(from, spans, |text|) && forall m: Span :: m in spans <==> from <= m.start && IsMatch(text, m)
  }

  /** Two matches are the same or disjoint: a match holds only one opening parenthesis. */
  lemma MatchesDoNotOverlap(text: string, a: Span, b: Span)
    requires IsMatch(text, a) && IsMatch(text, b) && a.start <= b.start
    ensures a == b || a.end <= b.start
  {
    if a.start == b.start {
      SameEnd(text, a, b);
      SameEnd(text, b, a);
    }
  }

  lemma SameEnd(text: string, a: Span, b: Span)
    requires IsMatch(text, a) && IsMatch(text, b) && a.start == b.start
    ensures b.end <= a.end
  {
  }

  lemma {:induction false} OrderedStarts(from: nat, spans: seq<Span>, size: nat, m: Span)
    requires InOrder(from, spans, size) && m in spans
    ensures from <= m.start < m.end <= size
    decreases |spans|
  {
    if m != spans[0] {
      OrderedStarts(spans[0].end, spans[1..], size, m);
    }
  }

  /** A non-empty match list is its first match followed by the match list from there on. */
  lemma TailMatchList(text: string, from: nat, spans: seq<Span>)
    requires IsMatchList(text, from, spans) && spans != []
    ensures IsMatchList(text, spans[0].end, spans[1..]) && IsMatch(text, spans[0])
  {
    var first, rest := spans[0], spans[1..];
    assert InOrder(first.end, rest, |text|) && first in spans;
    assert spans == [first] + rest;
    FirstSpan(from, spans, |text|);
    hide IsMatch, InOrder;
    forall m: Span
      ensures m in rest <==> first.end <= m.start && IsMatch(text, m)
    {
      assert m in spans <==> m == first || m in rest;
      if m in rest {
        OrderedStarts(first.end, rest, |text|, m);
      }
    }
  }

  lemma FirstSpan(from: nat, spans: seq<Span>, size: nat)
    requires InOrder(from, spans, size) && spans != []
    ensures from <= spans[0].start < spans[0].end <= size && InOrder(spans[0].end, spans[1..], size)
  {
  }

  /** There is only one match list. */
  lemma {:induction false} MatchListUnique(text: string, from: nat, xs: seq<Span>, ys: seq<Span>)
    requires IsMatchList(text, from, xs) && IsMatchList(text, from, ys)
    ensures xs == ys
    decreases |xs|
  {
    hide IsMatch, InOrder;
    assert xs != [] ==> xs[0] in ys;
    assert ys != [] ==> ys[0] in xs;
    if xs != [] {
      SameFirstMatch(text, from, xs, ys);
      TailMatchList(text, from, xs);
      TailMatchList(text, from, ys);
      MatchListUnique(text, xs[0].end, xs[1..], ys[1..]);
      assert xs == [xs[0]] + xs[1..] && ys == [ys[0]] + ys[1..];
    }
  }

  lemma SameFirstMatch(text: string, from: nat, xs: seq<Span>, ys: seq<Span>)
    requires IsMatchList(text, from, xs) && IsMatchList(text, from, ys) && xs != [] && ys != []
    ensures xs[0] == ys[0]
  {
    hide IsMatch, InOrder;
    var x, y := xs[0], ys[0];
    assert x in xs && y in ys;
    assert x in ys && y in xs;
    FirstIsEarliest(from, xs, |text|, y);
    FirstIsEarliest(from, ys, |text|, x);
    MatchesDoNotOverlap(text, x, y);
    FirstSpan(from, xs, |text|);
  }

  lemma FirstIsEarliest(from: nat, spans: seq<Span>, size: nat, m: Span)
    requires InOrder(from, spans, size) && m in spans
    ensures spans[0].start <= m.start
  {
    if m != spans[0] {
      OrderedStarts(spans[0].end, spans[1..], size, m);
    }
  }

  /** The scan visits every match. */
  lemma {:induction false} MatchesAreMatchList(text: string, i: nat)
    requires i <= |text|
    ensures IsMatchList(text, i, Matches(text, i))
    decreases |text| - i
  {
    if i == |text| {
      assert forall m: Span :: IsMatch(text, m) ==> m.start < i;
    } else {
      var r := MatchAt(text, i);
      if r.None? {
        MatchesAreMatchList(text, i + 1);
        SkipOne(text, i, Matches(text, i + 1));
      } else {
        MatchesAreMatchList(text, r.value);
        ConsMatch(text, Span(i, r.value), Matches(text, r.value));
      }
    }
  }

  lemma SkipOne(text: string, i: nat, spans: seq<Span>)
    requires i < |text| && IsMatchList(text, i + 1, spans)
    requires forall end :: !IsMatch(text, Span(i, end))
    ensures IsMatchList(text, i, spans)
  {
    hide IsMatch;
    forall m: Span
      ensures m in spans <==> i <= m.start && IsMatch(text, m)
    {
      assert m == Span(m.start, m.end);
    }
    assert InOrder(i, spans, |text|);
  }

  lemma ConsMatch(text: string, first: Span, rest: seq<Span>)
    requires IsMatch(text, first) && IsMatchList(text, first.end, rest)
    ensures IsMatchList(text, first.start, [first] + rest)
  {
    var all := [first] + rest;
    assert all[1..] == rest;
    assert InOrder(first.start, all, |text|);
    assert first.start < first.end;
    hide IsMatch, InOrder;
    forall m: Span
      ensures m in all <==> first.start <= m.start && IsMatch(text, m)
    {
      assert m in all <==> m == first || m in rest;
      if first.start <= m.start && IsMatch(text, m) {
        MatchesDoNotOverlap(text, first, m);
      }
    }
  }

  /** The captured content of a match, normalised. */
  function Captured(text: string, m: Span, u: Unicode): string
    requires m.start + 4 <= m.end <= |text|
  {
    u.nfc(text[m.start + 3..m.end - 1])
  }

  /** Some match captures `name`. */
  ghost predicate Marks(text: string, m: Span, name: string, u: Unicode) {
    IsMatch(text, m) && u.nfc(text[m.start + 3..m.end - 1]) == name
  }

  // ---------------------------------------------------------------- the names a text refers to

  ghost predicate AllMatches(text: string, spans: seq<Span>) {
    forall k :: 0 <= k < |spans| ==> IsMatch(text, spans[k])
  }

  /** Valid names captured by the first `n` spans, without repetition, in order of first capture. */
  ghost function Names(text: string, spans: seq<Span>, n: nat, u: Unicode): seq<string>
    requires AllMatches(text, spans) && n <= |spans|
  {
    if n == 0 then []
    else
      var names, raw := Names(text, spans, n - 1, u), Captured(text, spans[n - 1], u);
      if IsValidName(raw, u) && raw !in names then names + [raw] else names
  }

  /** The wanted names of a text: each once, exactly the valid names some marker captures, and a name stands
      before another one only if one of its markers precedes all markers of the other. */
  ghost predicate IsNameList(text: string, u: Unicode, wanted: iset<string>, names: seq<string>) {
    && (forall i, j :: 0 <= i < j < |names| ==> names[i] != names[j])
    && (forall name :: name in names <==>
          name in wanted && IsValidName(name, u) && exists m :: Marks(text, m, name, u))
    && (forall i, j :: 0 <= i < j < |names| ==> Precedes(text, names[i], names[j], u))
  }

  /** All names: where nothing has a value, every one lacks it. */
  ghost function AnyName(): iset<string> {
    Unknown(map[])
  }

  ghost function Known(resolved: Values): iset<string> {
    iset name | name in resolved
  }

  ghost function Unknown(resolved: Values): iset<string> {
    iset name: string | name !in resolved
  }

  /** Some marker of `a` stands before all markers of `b`. */
  ghost predicate Precedes(text: string, a: string, b: string, u: Unicode) {
    forall m: Span :: Marks(text, m, b, u) ==> MarkedBefore(text, a, m.start, u)
  }

  ghost predicate MarkedBefore(text: string, name: string, p: nat, u: Unicode) {
    exists m: Span :: m.start < p && Marks(text, m, name, u)
  }

  ghost predicate CapturedAt(text: string, spans: seq<Span>, k: nat, name: string, u: Unicode) {
    k < |spans| && Marks(text, spans[k], name, u)
  }

  ghost predicate CapturedBefore(text: string, spans: seq<Span>, n: nat, name: string, u: Unicode) {
    exists k: nat :: k < n && CapturedAt(text, spans, k, name, u)
  }

  ghost predicate Unrepeated(names: seq<string>) {
    forall i, j :: 0 <= i < j < |names| ==> names[i] != names[j]
  }

  /** `IsNameList` by positions in the first `n` spans. */
  ghost predicate ListsNames(text: string, spans: seq<Span>, n: nat, u: Unicode, names: seq<string>) {
    && Unrepeated(names)
    && (forall name :: name in names <==> IsValidName(name, u) && CapturedBefore(text, spans, n, name, u))
    && (forall i, j, k: nat :: 0 <= i < j < |names| && k < n && CapturedAt(text, spans, k, names[j], u) ==>
          CapturedBefore(text, spans, k, names[i], u))
  }

  lemma {:induction false} NamesAreListed(text: string, spans: seq<Span>, n: nat, u: Unicode)
    requires AllMatches(text, spans) && n <= |spans|
    ensures ListsNames(text, spans, n, u, Names(text, spans, n, u))
  {
    if n > 0 {
      NamesAreListed(text, spans, n - 1, u);
      hide Marks, IsValidName;
      OneMoreSpan(text, spans, n, u, Names(text, spans, n - 1, u), Captured(text, spans[n - 1], u));
    }
  }

  lemma OneMoreSpan(text: string, spans: seq<Span>, n: nat, u: Unicode, names: seq<string>, raw: string)
    requires 0 < n <= |spans| && ListsNames(text, spans, n - 1, u, names)
    requires Marks(text, spans[n - 1], raw, u)
    ensures ListsNames(text, spans, n, u, if IsValidName(raw, u) && raw !in names then names + [raw] else names)
  {
    hide IsValidName;
    assert CapturedAt(text, spans, n - 1, raw, u);
    assert forall name {:trigger CapturedAt(text, spans, n - 1, name, u)} ::
        CapturedAt(text, spans, n - 1, name, u) ==> name == raw;
    hide Marks, CapturedAt;
    var out := if IsValidName(raw, u) && raw !in names then names + [raw] else names;
    forall name
      ensures CapturedBefore(text, spans, n, name, u) <==> name == raw || CapturedBefore(text, spans, n - 1, name, u)
    {
      if CapturedBefore(text, spans, n, name, u) {
        var k: nat :| k < n && CapturedAt(text, spans, k, name, u);
        assert k == n - 1 || CapturedBefore(text, spans, n - 1, name, u);
      }
    }
    forall i, j, k: nat | 0 <= i < j < |out| && k < n && CapturedAt(text, spans, k, out[j], u)
      ensures CapturedBefore(text, spans, k, out[i], u)
    {
      assert out[i] in names;
      if k < n - 1 {
        assert CapturedBefore(text, spans, n - 1, out[j], u);
      } else {
        assert out[j] == raw;
        if j < |names| {
          CaptureOrder(text, spans, n - 1, u, names, i, j);
        }
      }
    }
  }

  lemma CaptureOrder(text: string, spans: seq<Span>, n: nat, u: Unicode, names: seq<string>, i: nat, j: nat)
    requires i < j < |names| && ListsNames(text, spans, n, u, names)
    ensures CapturedBefore(text, spans, n, names[i], u)
  {
    assert names[i] in names;
  }

  lemma {:induction false} StartsIncrease(from: nat, spans: seq<Span>, size: nat, j: nat, k: nat)
    requires InOrder(from, spans, size) && j < |spans| && k < |spans| && spans[j].start <= spans[k].start
    ensures j <= k
    decreases |spans|
  {
    if k == 0 {
      if j > 0 {
        OrderedStarts(spans[0].end, spans[1..], size, spans[j]);
      }
    } else if j > 0 {
      StartsIncrease(spans[0].end, spans[1..], size, j - 1, k - 1);
    }
  }

  lemma MarkIsCaptured(text: string, spans: seq<Span>, m: Span, name: string, u: Unicode) returns (k: nat)
    requires IsMatchList(text, 0, spans) && Marks(text, m, name, u)
    ensures k < |spans| && spans[k] == m && CapturedAt(text, spans, k, name, u)
            && CapturedBefore(text, spans, |spans|, name, u)
  {
    assert m in spans;
    k :| 0 <= k < |spans| && spans[k] == m;
    assert CapturedAt(text, spans, k, name, u);
  }

  lemma NamesAreNameList(text: string, spans: seq<Span>, u: Unicode, names: seq<string>)
    requires IsMatchList(text, 0, spans) && ListsNames(text, spans, |spans|, u, names)
    ensures IsNameList(text, u, AnyName(), names)
  {
    hide IsValidName, Marks, IsMatchList;
    forall name
      ensures CapturedBefore(text, spans, |spans|, name, u) <==> exists m :: Marks(text, m, name, u)
    {
      if m :| Marks(text, m, name, u) {
        var k := MarkIsCaptured(text, spans, m, name, u);
      }
    }
    forall i, j | 0 <= i < j < |names|
      ensures Precedes(text, names[i], names[j], u)
    {
      forall m: Span | Marks(text, m, names[j], u)
        ensures MarkedBefore(text, names[i], m.start, u)
      {
        var k := MarkIsCaptured(text, spans, m, names[j], u);
        assert CapturedBefore(text, spans, k, names[i], u);
        EarlierCapture(text, spans, k, names[i], u);
      }
    }
  }

  lemma EarlierCapture(text: string, spans: seq<Span>, k: nat, name: string, u: Unicode)
    requires IsMatchList(text, 0, spans) && k < |spans| && CapturedBefore(text, spans, k, name, u)
    ensures MarkedBefore(text, name, spans[k].start, u)
  {
    hide Marks;
    var e: nat :| e < k && CapturedAt(text, spans, e, name, u);
    if spans[k].start <= spans[e].start {
      StartsIncrease(0, spans, |text|, k, e);
    }
    assert Marks(text, spans[e], name, u);
  }

  /** `parseAliasMarkers`. */
  method ParseAliasMarkers(text: string, u: Unicode) returns (out: seq<string>)
    ensures IsNameList(text, u, AnyName(), out)
  {
    var spans := Matches(text, 0);
    MatchesAreMatchList(text, 0);
    ListedFrom(text, 0, spans);
    var seen: set<string> := {};
    out := [];
    for i := 0 to |spans|
      invariant out == Names(text, spans, i, u)
      invariant forall name :: name in seen <==> name in out
    {
      var raw := Captured(text, spans[i], u);
      if !IsValidName(raw, u) || raw in seen {
        continue;
      }
      seen := seen + {raw};
      out := out + [raw];
    }
    NamesAreListed(text, spans, |spans|, u);
    NamesAreNameList(text, spans, u, out);
  }

  /** Two names cannot precede each other. */
  lemma {:induction false} FirstMarkIsOne(text: string, a: string, b: string, m: Span, u: Unicode)
    requires Marks(text, m, b, u) && Precedes(text, a, b, u)
    ensures !Precedes(text, b, a, u)
    decreases m.start
  {
    hide Marks;
    assert MarkedBefore(text, a, m.start, u);
    var p: Span :| p.start < m.start && Marks(text, p, a, u);
    hide *;
    if Precedes(text, b, a, u) {
      FirstMarkIsOne(text, b, a, p, u);
    }
  }

  /** The description fixes the list. */
  lemma NameListUnique(text: string, u: Unicode, wanted: iset<string>, xs: seq<string>, ys: seq<string>)
    requires IsNameList(text, u, wanted, xs) && IsNameList(text, u, wanted, ys)
    ensures xs == ys
  {
    hide *;
    SamePrefix(text, u, wanted, xs, ys, if |xs| <= |ys| then |xs| else |ys|);
    NextIsOld(text, u, wanted, xs, ys);
    NextIsOld(text, u, wanted, ys, xs);
    NextIsNew(text, u, wanted, xs, ys);
    NextIsNew(text, u, wanted, ys, xs);
  }

  lemma NextIsOld(text: string, u: Unicode, wanted: iset<string>, xs: seq<string>, ys: seq<string>)
    requires IsNameList(text, u, wanted, xs) && IsNameList(text, u, wanted, ys)
    ensures |xs| < |ys| ==> ys[|xs|] in xs
  {
    hide IsValidName, Marks, Precedes;
    assert forall k :: 0 <= k < |ys| ==> ys[k] in ys;
  }

  lemma NextIsNew(text: string, u: Unicode, wanted: iset<string>, xs: seq<string>, ys: seq<string>)
    requires IsNameList(text, u, wanted, ys)
    requires forall i :: 0 <= i < |xs| && i < |ys| ==> xs[i] == ys[i]
    ensures |xs| < |ys| ==> ys[|xs|] !in xs
  {
    hide IsValidName, Marks, Precedes;
  }

  lemma {:induction false} SamePrefix(
    text: string, u: Unicode, wanted: iset<string>, xs: seq<string>, ys: seq<string>, n: nat)
    requires IsNameList(text, u, wanted, xs) && IsNameList(text, u, wanted, ys) && n <= |xs| && n <= |ys|
    ensures forall i :: 0 <= i < n ==> xs[i] == ys[i]
  {
    hide *;
    if n > 0 {
      SamePrefix(text, u, wanted, xs, ys, n - 1);
      if xs[n - 1] != ys[n - 1] {
        var m := MarkOf(text, u, wanted, xs, n - 1);
        Ahead(text, u, wanted, xs, ys, n - 1);
        Ahead(text, u, wanted, ys, xs, n - 1);
        FirstMarkIsOne(text, ys[n - 1], xs[n - 1], m, u);
      }
    }
  }

  lemma MarkOf(text: string, u: Unicode, wanted: iset<string>, names: seq<string>, n: nat) returns (m: Span)
    requires IsNameList(text, u, wanted, names) && n < |names|
    ensures Marks(text, m, names[n], u)
  {
    hide IsValidName, Marks, Precedes;
    assert names[n] in names;
    m :| Marks(text, m, names[n], u);
  }

  lemma Ahead(text: string, u: Unicode, wanted: iset<string>, xs: seq<string>, ys: seq<string>, n: nat)
    requires IsNameList(text, u, wanted, xs) && IsNameList(text, u, wanted, ys) && n < |xs| && n < |ys|
    requires xs[n] != ys[n] && forall i :: 0 <= i < n ==> xs[i] == ys[i]
    ensures Precedes(text, ys[n], xs[n], u)
  {
    hide IsValidName, Marks, Precedes;
    assert forall i :: 0 <= i < n ==> xs[i] != xs[n];
    assert xs[n] in xs && xs[n] in ys;
  }

  // ---------------------------------------------------------------- what is injected

  /** `\p{Cc}` other than newline and tab. */
  predicate IsStripped(c: char) {
    IsControl(c) && c != '\n' && c != '\t'
  }

  function Strip(s: string): string {
    if s == "" then "" else (if IsStripped(s[0]) then "" else [s[0]]) + Strip(s[1..])
  }

  /** `sanitizeInjected`. */
  function Sanitize(s: string, max: nat, u: Unicode): (r: string)
    ensures |r| <= max && r <= Strip(u.nfc(s))
  {
    var kept := Strip(u.nfc(s));
    if |kept| > max then kept[..max] else kept
  }

  lemma {:induction false} StripIsClean(s: string)
    ensures forall i :: 0 <= i < |Strip(s)| ==> !IsStripped(Strip(s)[i])
  {
    if s != "" {
      StripIsClean(s[1..]);
    }
  }

  lemma {:induction false} CleanIsKept(s: string)
    requires forall i :: 0 <= i < |s| ==> !IsStripped(s[i])
    ensures Strip(s) == s
  {
    if s != "" {
      CleanIsKept(s[1..]);
    }
  }

  /** Sanitised text is within its cap and holds no control character but newline and tab; normalised text
      passes through the gate unchanged exactly when it is already like that. */
  lemma SanitizedIsClean(s: string, max: nat, u: Unicode)
    ensures |Sanitize(s, max, u)| <= max && NothingToStrip(Sanitize(s, max, u))
    ensures u.nfc(s) == s ==> (Sanitize(s, max, u) == s <==> |s| <= max && NothingToStrip(s))
  {
    StripIsClean(u.nfc(s));
    if NothingToStrip(u.nfc(s)) {
      CleanIsKept(u.nfc(s));
    }
  }

  /** What the gate lets through: of the normalised text exactly the characters that are newlines, tabs or no control
      characters, in order, as many of the first ones as the cap allows. */
  lemma SanitizedIs(s: string, max: nat, u: Unicode) returns (kept: string, at: seq<nat>)
    ensures PicksAt(u.nfc(s), at, kept)
    ensures forall i :: 0 <= i < |u.nfc(s)| ==>
              (i in at <==> Passes(u.nfc(s)[i]))
    ensures Sanitize(s, max, u) == if |kept| > max then kept[..max] else kept
  {
    at := StripPicks(u.nfc(s));
    kept := Strip(u.nfc(s));
  }

  /** Newline, tab, or outside the ranges of the control characters. */
  ghost predicate Passes(c: char) {
    c == '\n' || c == '\t' || (' ' <= c && (c < '\U{7F}' || c > '\U{9F}'))
  }

  lemma StripStep(s: string)
    requires s != ""
    ensures Strip(s) == if Passes(s[0]) then [s[0]] + Strip(s[1..]) else Strip(s[1..])
  {
    assert IsStripped(s[0]) <==> !Passes(s[0]);
    assert "" + Strip(s[1..]) == Strip(s[1..]);
  }

  lemma {:induction false} StripPicks(s: string) returns (at: seq<nat>)
    ensures PicksAt(s, at, Strip(s))
    ensures forall i :: 0 <= i < |s| ==> (i in at <==> Passes(s[i]))
  {
    if s == "" {
      at := [];
    } else {
      var t := s[1..];
      var rest := StripPicks(t);
      StripStep(s);
      hide *;
      if Passes(s[0]) {
        PickFirst(s, rest, Strip(t));
        at := [0] + Shifted(rest);
      } else {
        PickLater(s, rest, Strip(t));
        at := Shifted(rest);
      }
      forall i | 0 <= i < |s|
        ensures i in at <==> Passes(s[i])
      {
        ShiftedHas(rest, i);
        assert i > 0 ==> t[i - 1] == s[i];
      }
    }
  }

  ghost predicate NothingToStrip(s: string) {
    forall i :: 0 <= i < |s| ==> !IsStripped(s[i])
  }

  /** The gate normalises before it strips, and stripping can join characters that normalise to something else.
      A second pass therefore gives the normalised result of the first one, cut to the cap: NFC can lengthen a text
      that was cut or stripped, as it makes three characters of U+01D6 U+0323. It changes nothing exactly when the
      first result is normalised, or fills the cap and normalising only appends to it. The hypothesis is one about
      NFC: it brings no control character into text that has none. */
  lemma SanitizeTwiceIff(s: string, max: nat, u: Unicode)
    requires NothingToStrip(u.nfc(Sanitize(s, max, u)))
    ensures var r := Sanitize(s, max, u);
            Sanitize(r, max, u) == if |u.nfc(r)| > max then u.nfc(r)[..max] else u.nfc(r)
    ensures var r := Sanitize(s, max, u);
            Sanitize(r, max, u) == r <==> u.nfc(r) == r || (|r| == max && r < u.nfc(r))
  {
    CleanIsKept(u.nfc(Sanitize(s, max, u)));
  }

  /** Stripping a control character between a letter and its combining mark leaves text that is not
      normalised, so a second pass composes it. */
  lemma SanitizeTwiceDiffers(letter: char, mark: char, composed: char, u: Unicode)
    requires !IsStripped(letter) && !IsStripped(mark) && !IsStripped(composed)
    requires u.nfc([letter, '\U{1}', mark]) == [letter, '\U{1}', mark] && u.nfc([letter, mark]) == [composed]
    ensures var r := Sanitize([letter, '\U{1}', mark], ALIAS_VALUE_MAX, u);
            r == [letter, mark] && Sanitize(r, ALIAS_VALUE_MAX, u) == [composed]
  {
    var s := [letter, '\U{1}', mark];
    assert s[1..] == ['\U{1}', mark] && s[1..][1..] == [mark] && [mark][1..] == "";
    assert Strip(s) == [letter] + Strip(s[1..]);
    CleanIsKept([letter, mark]);
    CleanIsKept([mark]);
    CleanIsKept([composed]);
  }

  /** And when composing such a pair lengthens a text that fills the cap, the second pass also cuts. */
  lemma SanitizeTwiceCuts(front: string, letter: char, mark: char, longer: string, u: Unicode)
    requires NothingToStrip(front + [letter, mark]) && NothingToStrip(front + longer) && |longer| > 2
    requires u.nfc(front + [letter, '\U{1}', mark]) == front + [letter, '\U{1}', mark]
    requires u.nfc(front + [letter, mark]) == front + longer && |front| + 2 == ALIAS_VALUE_MAX
    ensures var r := Sanitize(front + [letter, '\U{1}', mark], ALIAS_VALUE_MAX, u);
            r == front + [letter, mark] && Sanitize(r, ALIAS_VALUE_MAX, u) == front + longer[..2] != u.nfc(r)
  {
    var all := front + [letter, mark];
    assert front + [letter, '\U{1}', mark] == (front + [letter]) + (['\U{1}'] + [mark]);
    assert (front + [letter]) + [mark] == all;
    assert all[|front|] == letter && all[|front| + 1] == mark;
    StripConcat(front + [letter], ['\U{1}'] + [mark]);
    StripConcat(['\U{1}'], [mark]);
    StripConcat(front + [letter], [mark]);
    CleanIsKept(all);
    assert Strip(['\U{1}']) == "" && Strip([mark]) == [mark];
    CleanIsKept(front + longer);
    assert (front + longer)[..ALIAS_VALUE_MAX] == front + longer[..2];
  }

  lemma {:induction false} StripConcat(a: string, b: string)
    ensures Strip(a + b) == Strip(a) + Strip(b)
  {
    if a == "" {
      assert a + b == b;
    } else {
      assert (a + b)[1..] == a[1..] + b;
      StripConcat(a[1..], b);
    }
  }

  // ---------------------------------------------------------------- inline substitution

  type Values = map<string, string>

  /** What a match is replaced by. */
  function Replacement(text: string, m: Span, resolved: Values, u: Unicode): string
    requires m.start + 4 <= m.end <= |text|
  {
    var name := Captured(text, m, u);
    if IsValidName(name, u) && name in resolved then Sanitize(resolved[name], ALIAS_VALUE_MAX, u)
        else text[m.start..m.end]
  }

  /** `substituteInline`: one left-to-right pass that never looks at what it has written. */
  function SubstituteFrom(text: string, i: nat, resolved: Values, u: Unicode): string
    requires i <= |text|
    decreases |text| - i
  {
    if i == |text| then ""
    else
      var m := MatchAt(text, i);
      if m.None? then [text[i]] + SubstituteFrom(text, i + 1, resolved, u)
      else Replacement(text, Span(i, m.value), resolved, u) + SubstituteFrom(text, m.value, resolved, u)
  }

  function SubstituteInline(text: string, resolved: Values, u: Unicode): string {
    SubstituteFrom(text, 0, resolved, u)
  }

  /** `text` from `from` on with exactly the listed spans replaced and everything between them copied. */
  ghost function Spliced(text: string, from: nat, spans: seq<Span>, resolved: Values, u: Unicode): string
    requires InOrder(from, spans, |text|) && AllMatches(text, spans)
    decreases |spans|
  {
    if spans == [] then text[from..]
    else
      assert IsMatch(text, spans[0]);
      assert AllMatches(text, spans[1..]) by {
        assert forall k :: 0 <= k < |spans[1..]| ==> spans[1..][k] == spans[k + 1];
      }
      var name := u.nfc(text[spans[0].start + 3..spans[0].end - 1]);
      text[from..spans[0].start]
      + (if IsValidName(name, u) && name in resolved then Sanitize(resolved[name], ALIAS_VALUE_MAX, u)
         else text[spans[0].start..spans[0].end])
      + Spliced(text, spans[0].end, spans[1..], resolved, u)
  }

  lemma {:induction false} ScanIsSpliced(text: string, i: nat, resolved: Values, u: Unicode)
    requires i <= |text|
    ensures InOrder(i, Matches(text, i), |text|) && AllMatches(text, Matches(text, i))
    ensures SubstituteFrom(text, i, resolved, u) == Spliced(text, i, Matches(text, i), resolved, u)
    decreases |text| - i
  {
    hide IsMatch, Replacement, InOrder, AllMatches;
    MatchesAreMatchList(text, i);
    ListedFrom(text, i, Matches(text, i));
    if i < |text| {
      var r := MatchAt(text, i);
      if r.None? {
        ScanIsSpliced(text, i + 1, resolved, u);
        SplicedEarlier(text, i, Matches(text, i), resolved, u);
      } else {
        ScanIsSpliced(text, r.value, resolved, u);
        SplicedHere(text, Span(i, r.value), Matches(text, r.value), resolved, u);
      }
    }
  }

  lemma SplicedHere(text: string, first: Span, rest: seq<Span>, resolved: Values, u: Unicode)
    requires IsMatch(text, first) && AllMatches(text, rest) && InOrder(first.end, rest, |text|)
    requires InOrder(first.start, [first] + rest, |text|) && AllMatches(text, [first] + rest)
    ensures Spliced(text, first.start, [first] + rest, resolved, u)
         == Replacement(text, first, resolved, u) + Spliced(text, first.end, rest, resolved, u)
  {
    assert IsMatch(text, first) && first.start + 4 <= first.end <= |text|;
    hide *;
    var all := [first] + rest;
    assert all[1..] == rest && all[0] == first;
    SplicedFirst(text, first.start, all, resolved, u);
    NothingBetween(text, first.start, Replacement(text, first, resolved, u),
        Spliced(text, first.end, rest, resolved, u));
  }

  lemma NothingBetween(text: string, at: nat, r: string, t: string)
    requires at <= |text|
    ensures text[at..at] + r + t == r + t
  {
  }

  lemma ListedFrom(text: string, from: nat, spans: seq<Span>)
    requires IsMatchList(text, from, spans)
    ensures AllMatches(text, spans)
  {
    assert forall k :: 0 <= k < |spans| ==> spans[k] in spans;
  }

  lemma SplicedEarlier(text: string, i: nat, spans: seq<Span>, resolved: Values, u: Unicode)
    requires i < |text| && InOrder(i + 1, spans, |text|) && AllMatches(text, spans)
    ensures InOrder(i, spans, |text|)
    ensures Spliced(text, i, spans, resolved, u) == [text[i]] + Spliced(text, i + 1, spans, resolved, u)
  {
    if spans == [] {
      assert text[i..] == [text[i]] + text[i + 1..];
    } else {
      SplicedFirst(text, i, spans, resolved, u);
      SplicedFirst(text, i + 1, spans, resolved, u);
      var k := spans[0].start;
      assert text[i..k] == [text[i]] + text[i + 1..k];
      var r, t := Replacement(text, spans[0], resolved, u), Spliced(text, spans[0].end, spans[1..], resolved, u);
      hide *;
      Glue([text[i]], text[i + 1..k], r, t);
    }
  }

  lemma SplicedFirst(text: string, from: nat, spans: seq<Span>, resolved: Values, u: Unicode)
    requires InOrder(from, spans, |text|) && AllMatches(text, spans) && spans != []
    ensures IsMatch(text, spans[0]) && AllMatches(text, spans[1..]) && InOrder(spans[0].end, spans[1..], |text|)
    ensures Spliced(text, from, spans, resolved, u)
         == text[from..spans[0].start] + Replacement(text, spans[0], resolved, u)
            + Spliced(text, spans[0].end, spans[1..], resolved, u)
  {
    hide IsValidName, Sanitize;
    assert IsMatch(text, spans[0]);
    forall k | 0 <= k < |spans[1..]|
      ensures IsMatch(text, spans[1..][k])
    {
      assert spans[1..][k] == spans[k + 1];
    }
  }

  lemma Glue(c: string, a: string, r: string, t: string)
    ensures c + a + r + t == c + (a + r + t)
  {
  }

  // ---------------------------------------------------------------- legend

  /** `value.replace(/\s+/g, ' ')`. */
  function Collapse(s: string): string {
    if s == "" then ""
    else if !IsJsSpace(s[0]) then [s[0]] + Collapse(s[1..])
    else if |s| > 1 && IsJsSpace(s[1]) then Collapse(s[1..])
    else " " + Collapse(s[1..])
  }

  /** `legendValueSingleLine`. */
  function SingleLine(s: string): string {
    Trim(Collapse(s))
  }

  /** The maximal runs of characters that are not white space. */
  function Words(s: string): (r: seq<string>)
    ensures s != "" && !IsJsSpace(s[0]) ==> |r| > 0
    ensures forall i :: 0 <= i < |r| ==> IsWord(r[i])
  {
    if s == "" then []
    else if IsJsSpace(s[0]) then Words(s[1..])
    else if |s| == 1 || IsJsSpace(s[1]) then [[s[0]]] + Words(s[1..])
    else
      var w := Words(s[1..]);
      [[s[0]] + w[0]] + w[1..]
  }

  predicate IsWord(w: string) {
    w != "" && forall i :: 0 <= i < |w| ==> !IsJsSpace(w[i])
  }

  function Lead(s: string): string {
    if s != "" && IsJsSpace(s[0]) then " " else ""
  }

  function Trail(s: string): string {
    if s != "" && IsJsSpace(s[|s| - 1]) && Words(s) != [] then " " else ""
  }

  lemma {:induction false} CollapseKeepsWords(s: string)
    ensures Collapse(s) == Lead(s) + Join(Words(s), " ") + Trail(s)
  {
    if s != "" {
      CollapseKeepsWords(s[1..]);
      if IsJsSpace(s[0]) {
        CollapseSpace(s, s[1..]);
      } else if |s| == 1 || IsJsSpace(s[1]) {
        CollapseLastOfWord(s, s[1..]);
      } else {
        CollapseInWord(s, s[1..]);
      }
    }
  }

  lemma CollapseSpace(s: string, t: string)
    requires s != "" && IsJsSpace(s[0]) && t == s[1..] && Collapse(t) == Lead(t) + Join(Words(t), " ") + Trail(t)
    ensures Collapse(s) == Lead(s) + Join(Words(s), " ") + Trail(s)
  {
    hide *;
    SpaceSteps(s, t);
  }

  lemma SpaceSteps(s: string, t: string)
    requires s != "" && IsJsSpace(s[0]) && t == s[1..]
    ensures Words(s) == Words(t) && Lead(s) == " "
    ensures t == "" ==> Collapse(s) == " " && Trail(s) == "" && Join(Words(t), " ") == ""
    ensures t != "" ==> Trail(s) == Trail(t)
    ensures t != "" && Lead(t) == " " ==> Collapse(s) == Collapse(t)
    ensures t != "" && Lead(t) != " " ==> Lead(t) == "" && Collapse(s) == " " + Collapse(t)
  {
    hide IsJsSpace, IsWord;
    assert t != "" ==> t[|t| - 1] == s[|s| - 1];
  }

  lemma CollapseLastOfWord(s: string, t: string)
    requires s != "" && !IsJsSpace(s[0]) && t == s[1..] && (t == "" || IsJsSpace(t[0]))
    requires Collapse(t) == Lead(t) + Join(Words(t), " ") + Trail(t)
    ensures Collapse(s) == Lead(s) + Join(Words(s), " ") + Trail(s)
  {
    hide *;
    LastOfWordSteps(s, t);
    JoinFirst([s[0]], Words(t), " ", Lead(t), Trail(t), Trail(s));
  }

  lemma LastOfWordSteps(s: string, t: string)
    requires s != "" && !IsJsSpace(s[0]) && t == s[1..] && (t == "" || IsJsSpace(t[0]))
    ensures Words(s) == [[s[0]]] + Words(t) && Collapse(s) == [s[0]] + Collapse(t) && Lead(s) == ""
    ensures Words(t) != [] ==> Lead(t) == " " && Trail(s) == Trail(t)
    ensures Words(t) == [] ==> Trail(t) == "" && Trail(s) == Lead(t)
  {
    hide IsJsSpace, IsWord, Join;
    assert t != "" ==> t[|t| - 1] == s[|s| - 1];
    if Words(t) == [] {
      AllSpace(t);
    }
  }

  lemma {:induction false} AllSpace(t: string)
    requires Words(t) == []
    ensures forall i :: 0 <= i < |t| ==> IsJsSpace(t[i])
  {
    hide IsJsSpace, IsWord;
    if t != "" {
      AllSpace(t[1..]);
    }
  }

  lemma JoinFirst(head: string, w: seq<string>, sep: string, lead: string, trail: string, last: string)
    requires w != [] ==> lead == sep && last == trail
    requires w == [] ==> trail == "" && last == lead
    ensures head + (lead + Join(w, sep) + trail) == Join([head] + w, sep) + last
  {
    var all := [head] + w;
    if w == [] {
      assert Join(all, sep) == head;
    } else {
      assert all[1..] == w;
      JoinStep(all, sep);
      var j := Join(w, sep);
      hide *;
      assert head + (sep + j + trail) == head + sep + j + trail;
    }
  }

  lemma CollapseInWord(s: string, t: string)
    requires |s| > 1 && !IsJsSpace(s[0]) && t == s[1..] && !IsJsSpace(t[0])
    requires Collapse(t) == Lead(t) + Join(Words(t), " ") + Trail(t)
    ensures Collapse(s) == Lead(s) + Join(Words(s), " ") + Trail(s)
  {
    hide *;
    InWordSteps(s, t);
    var w := Words(t);
    JoinGrow(s[0], w, " ");
    Reassociate([s[0]], Join(w, " "), Trail(t));
  }

  lemma InWordSteps(s: string, t: string)
    requires |s| > 1 && !IsJsSpace(s[0]) && t == s[1..] && !IsJsSpace(t[0])
    ensures Words(t) != [] && Words(s) == [[s[0]] + Words(t)[0]] + Words(t)[1..]
    ensures Collapse(s) == [s[0]] + Collapse(t) && Lead(s) == "" && Lead(t) == "" && Trail(s) == Trail(t)
  {
    hide IsJsSpace, IsWord, Join;
    assert t[|t| - 1] == s[|s| - 1];
  }

  lemma {:induction false} JoinedWords(ws: seq<string>)
    requires ws != [] && forall i :: 0 <= i < |ws| ==> IsWord(ws[i])
    ensures var j := Join(ws, " "); j != "" && !IsJsSpace(j[0]) && !IsJsSpace(j[|j| - 1]) && '\n' !in j
  {
    if |ws| > 1 {
      JoinedWords(ws[1..]);
      var j := Join(ws[1..], " ");
      assert IsWord(ws[0]);
      assert Join(ws, " ") == ws[0] + " " + j;
      hide Join;
      assert '\n' !in ws[0];
    } else {
      assert Join(ws, " ") == ws[0];
    }
  }

  /** The single-line form is the words of the text with one space between neighbours. */
  lemma SingleLineIsWords(s: string)
    ensures SingleLine(s) == Join(Words(s), " ")
    ensures '\n' !in SingleLine(s)
  {
    hide *;
    CollapseKeepsWords(s);
    WordsAreWords(s);
    AroundIsSpace(s);
    var words := Words(s);
    if words == [] {
      NoWords(s);
    } else {
      JoinedWords(words);
      TrimPadded(Lead(s), Join(words, " "), Trail(s));
      SingleLineStep(s);
    }
  }

  lemma SingleLineStep(s: string)
    ensures SingleLine(s) == Trim(Collapse(s))
  {
  }

  lemma WordsAreWords(s: string)
    ensures forall i :: 0 <= i < |Words(s)| ==> IsWord(Words(s)[i])
  {
    hide *;
  }

  lemma AroundIsSpace(s: string)
    ensures forall i :: 0 <= i < |Lead(s)| ==> IsJsSpace(Lead(s)[i])
    ensures forall i :: 0 <= i < |Trail(s)| ==> IsJsSpace(Trail(s)[i])
  {
    hide Words, IsWord;
  }

  lemma NoWords(s: string)
    requires Words(s) == [] && Collapse(s) == Lead(s) + Join([], " ") + Trail(s)
    ensures SingleLine(s) == "" && Join([], " ") == ""
  {
    assert Join([], " ") == "";
    hide *;
    SingleLineStep(s);
    AroundIsSpace(s);
    TrimBlank(Collapse(s));
  }

  /** The first sentence of the directive: what the markers stand for. */
  function UseValues(): (r: string)
    ensures '\n' !in r
  {
    var a, b := "The ;;(name) markers in the message", " below expand to the ";
    var c, d := "following values; use the value", " wherever its marker appears. ";
    assert '\n' !in a && '\n' !in b && '\n' !in c && '\n' !in d;
    a + b + c + d
  }

  /** The second one begins by saying that a note may follow, */
  function NoteMayFollow(): (r: string)
    ensures '\n' !in r
  {
    var a, b := "A line may carry a \"\U{2014} note:\"", " written by the user about that alias: ";
    assert '\n' !in a && '\n' !in b;
    a + b
  }

  /** and ends by saying what it means. */
  function NoteConstrains(): (r: string)
    ensures '\n' !in r
  {
    var a, b, c := "treat it as a constraint on how ", "the value may be used, ", "not as part of the value:";
    assert '\n' !in a && '\n' !in b && '\n' !in c;
    a + b + c
  }

  /** `ALIAS_LEGEND_DIRECTIVE`. */
  function LegendDirective(): (r: string)
    ensures '\n' !in r
  {
    hide UseValues, NoteMayFollow, NoteConstrains;
    UseValues() + NoteMayFollow() + NoteConstrains()
  }

  function NoteSeparator(): string { " \U{2014} note: " }

  function NoteHint(): (r: string)
    ensures '\n' !in r
  {
    var a, b := "\U{2026} (note truncated \U{2014} call", " list_aliases for the full text)";
    assert '\n' !in a && '\n' !in b;
    a + b
  }

  /** The part of a note that goes on its line. */
  function ShownNote(note: string): string {
    if |note| > ALIAS_LEGEND_NOTE_INLINE_MAX then note[..ALIAS_LEGEND_NOTE_INLINE_MAX] + NoteHint() else note
  }

  /** `buildAliasLegendLine`. */
  function LegendLine(name: string, value: string, note: Option<string>): string {
    var line := ";;(" + name + "): " + SingleLine(value);
    var shown := if note.Some? then SingleLine(note.value) else "";
    if shown == "" then line else line + NoteSeparator() + ShownNote(shown)
  }

  /** `aliasNoteFor`: blank notes count as absent. */
  function NoteFor(notes: Option<Values>, name: string): Option<string> {
    if notes.Some? && name in notes.value && Trim(notes.value[name]) != "" then Some(notes.value[name]) else None
  }

  /** The legend line of one resolved name. */
  function Entry(name: string, resolved: Values, notes: Option<Values>, u: Unicode): string
    requires name in resolved
  {
    var note := NoteFor(notes, name);
    LegendLine(name, Sanitize(resolved[name], ALIAS_VALUE_MAX, u),
               if note.None? then None else Some(Sanitize(note.value, ALIAS_NOTE_HARD_MAX, u)))
  }

  function Entries(names: seq<string>, resolved: Values, notes: Option<Values>, u: Unicode): seq<string>
    requires AllIn(names, resolved)
  {
    seq(|names|, i requires 0 <= i < |names| => Entry(names[i], resolved, notes, u))
  }

  predicate AllIn(names: seq<string>, resolved: Values) {
    forall i :: 0 <= i < |names| ==> names[i] in resolved
  }

  /** The names of a list that have a value. */
  function Having(names: seq<string>, resolved: Values): (r: seq<string>)
    ensures forall name :: name in r <==> name in names && name in resolved
  {
    if names == [] then [] else (if names[0] in resolved then [names[0]] else []) + Having(names[1..], resolved)
  }

  /** And those that lack one. */
  function Lacking(names: seq<string>, resolved: Values): (r: seq<string>)
    ensures forall name :: name in r <==> name in names && name !in resolved
  {
    if names == [] then [] else (if names[0] !in resolved then [names[0]] else []) + Lacking(names[1..], resolved)
  }

  lemma {:induction false} HavingPicks(names: seq<string>, resolved: Values) returns (at: seq<nat>)
    ensures PicksAt(names, at, Having(names, resolved))
  {
    at := [];
    if names != [] {
      at := HavingPicks(names[1..], resolved);
      if names[0] in resolved {
        PickFirst(names, at, Having(names[1..], resolved));
        at := [0] + Shifted(at);
      } else {
        PickLater(names, at, Having(names[1..], resolved));
        at := Shifted(at);
      }
    }
  }

  lemma {:induction false} LackingPicks(names: seq<string>, resolved: Values) returns (at: seq<nat>)
    ensures PicksAt(names, at, Lacking(names, resolved))
  {
    at := [];
    if names != [] {
      at := LackingPicks(names[1..], resolved);
      if names[0] !in resolved {
        PickFirst(names, at, Lacking(names[1..], resolved));
        at := [0] + Shifted(at);
      } else {
        PickLater(names, at, Lacking(names[1..], resolved));
        at := Shifted(at);
      }
    }
  }

  /** Picking names out of a name list keeps their order. */
  lemma PickedNames(text: string, u: Unicode, wanted: iset<string>, names: seq<string>, at: seq<nat>,
                    picked: seq<string>)
    requires IsNameList(text, u, AnyName(), names) && PicksAt(names, at, picked)
    requires forall name :: name in picked <==> name in names && name in wanted
    ensures IsNameList(text, u, wanted, picked)
  {
    hide IsValidName, Marks, Precedes;
    forall i, j | 0 <= i < j < |picked|
      ensures picked[i] != picked[j] && Precedes(text, picked[i], picked[j], u)
    {
      assert at[i] < at[j];
    }
  }

  /** What has a value and what lacks one, each in order of first occurrence. */
  lemma PartsOfNameList(text: string, u: Unicode, names: seq<string>, resolved: Values)
    requires IsNameList(text, u, AnyName(), names)
    ensures IsNameList(text, u, Known(resolved), Having(names, resolved))
    ensures IsNameList(text, u, Unknown(resolved), Lacking(names, resolved))
  {
    var at := HavingPicks(names, resolved);
    var rest := LackingPicks(names, resolved);
    hide IsNameList, Having, Lacking;
    PickedNames(text, u, Known(resolved), names, at, Having(names, resolved));
    PickedNames(text, u, Unknown(resolved), names, rest, Lacking(names, resolved));
  }

  datatype Mode = Inline | Legend

  datatype Expansion = Expansion(deliver: bool, text: string, unresolved: seq<string>, reason: Option<string>)

  /** What every entry starts with: the marker and the words of the value. */
  function EntryHead(name: string, value: string): string {
    ";;(" + name + "): " + Join(Words(value), " ")
  }

  /** What an entry adds when its note has these words: nothing without any, otherwise the separator and the words,
      cut to the budget and then followed by the hint. */
  function EntryTail(words: string): string {
    if words == "" then ""
    else if |words| <= 300 then NoteSeparator() + words
    else NoteSeparator() + words[..300] + NoteHint()
  }

  /** There is a note for the name that is not blank. */
  ghost predicate HasNote(notes: Option<Values>, name: string) {
    notes.Some? && name in notes.value && exists i :: 0 <= i < |notes.value[name]| && !IsJsSpace(notes.value[name][i])
  }

  /** An entry is one line whatever its value and its note hold: the marker, the words of the sanitised value, and,
      if there is a note that is not blank, the words of the sanitised note within the budget. */
  lemma EntryIsOneLine(name: string, resolved: Values, notes: Option<Values>, u: Unicode)
    requires name in resolved && IsValidName(name, u)
    ensures '\n' !in Entry(name, resolved, notes, u)
    ensures Entry(name, resolved, notes, u)
            == ";;(" + name + "): " + Join(Words(Sanitize(resolved[name], 500, u)), " ")
               + if HasNote(notes, name) then EntryTail(Join(Words(Sanitize(notes.value[name], 8000, u)), " ")) else ""
  {
    var note := NoteFor(notes, name);
    var value := Sanitize(resolved[name], ALIAS_VALUE_MAX, u);
    var given := if note.None? then None else Some(Sanitize(note.value, ALIAS_NOTE_HARD_MAX, u));
    assert Entry(name, resolved, notes, u) == LegendLine(name, value, given);
    assert EntryHead(name, value) == ";;(" + name + "): " + Join(Words(value), " ");
    NameIsOneLine(name, u);
    NoteIs(notes, name);
    hide *;
    LegendLineIsOneLine(name, value, given);
    AddNothing(EntryHead(name, value));
  }

  lemma AddNothing(s: string)
    ensures s + "" == s
  {
  }

  lemma NoteIs(notes: Option<Values>, name: string)
    ensures NoteFor(notes, name) == if HasNote(notes, name) then Some(notes.value[name]) else None
  {
    if notes.Some? && name in notes.value {
      TrimBlank(notes.value[name]);
    }
  }

  lemma NameIsOneLine(name: string, u: Unicode)
    requires IsValidName(name, u)
    ensures '\n' !in name
  {
    assert forall i :: 0 <= i < |name| ==> IsNameChar(name[i], u);
  }

  lemma LegendLineIsOneLine(name: string, value: string, note: Option<string>)
    requires '\n' !in name
    ensures '\n' !in LegendLine(name, value, note)
    ensures LegendLine(name, value, note)
            == EntryHead(name, value) + if note.Some? then EntryTail(Join(Words(note.value), " ")) else ""
  {
    SingleLineIsWords(value);
    hide SingleLine, Words, Join, ShownNote, NoteHint, NoteSeparator, EntryTail;
    var head := EntryHead(name, value);
    AddNothing(head);
    if note.Some? {
      SingleLineIsWords(note.value);
      ShownNoteIsTail(head, SingleLine(note.value));
    }
  }

  lemma ShownNoteIsTail(head: string, words: string)
    requires '\n' !in words
    ensures (if words == "" then head else head + NoteSeparator() + ShownNote(words)) == head + EntryTail(words)
    ensures '\n' !in EntryTail(words)
  {
    hide NoteHint;
    var sep := NoteSeparator();
    assert '\n' !in sep;
    hide NoteSeparator;
    AddNothing(head);
    Reassociate(head, sep, words);
    if |words| > 300 {
      Reassociate(head, sep, words[..300] + NoteHint());
      Reassociate(sep, words[..300], NoteHint());
    }
  }

  /** The lines of a text with a legend in front. */
  lemma LegendLines(directive: string, entries: seq<string>, text: string)
    requires '\n' !in directive && entries != [] && forall i :: 0 <= i < |entries| ==> '\n' !in entries[i]
    ensures Split(directive + "\n" + Join(entries, "\n") + "\n\n" + text, '\n')
            == [directive] + entries + [""] + Split(text, '\n')
  {
    hide *;
    SplitOfJoin(entries, '\n');
    var legend := Join(entries, "\n");
    assert "\n" == ['\n'];
    SplitCons(directive, legend, '\n');
    SplitCons("", text, '\n');
    var head, tail := directive + ['\n'] + legend, "" + ['\n'] + text;
    SplitConcat(head, tail, '\n');
    LegendText(directive, legend, text);
    assert [directive] + entries + ([""] + Split(text, '\n')) == [directive] + entries + [""] + Split(text, '\n');
  }

  lemma LegendText(directive: string, legend: string, text: string)
    ensures (directive + ['\n'] + legend) + ['\n'] + ("" + ['\n'] + text) == directive + "\n" + legend + "\n\n" + text
  {
  }

  /** Every valid marker of the text has a value. */
  ghost predicate AllResolved(text: string, resolved: Values, u: Unicode) {
    forall m, name :: Marks(text, m, name, u) && IsValidName(name, u) ==> name in resolved
  }

  /** `out` is the text with its matches replaced: everything between two matches is copied, and values are
      not looked at again. */
  ghost predicate IsInlined(text: string, resolved: Values, u: Unicode, out: string) {
    forall spans :: IsMatchList(text, 0, spans) ==>
        AllMatches(text, spans) && out == Spliced(text, 0, spans, resolved, u)
  }

  /** `out` is the directive, one line for each listed name, an empty line, and the lines of the text. */
  ghost predicate IsLegend(text: string, names: seq<string>, resolved: Values, notes: Option<Values>, out: string,
                           u: Unicode) {
    && AllIn(names, resolved)
    && Split(out, '\n') == [LegendDirective()] + Entries(names, resolved, notes, u) + [""] + Split(text, '\n')
  }

  /** What an expansion promises. The valid names without a value are reported, and those with one are listed, in
      order of their first markers. */
  ghost predicate IsExpansion(text: string, resolved: Values, mode: Mode, notes: Option<Values>, u: Unicode,
                              r: Expansion) {
    && IsNameList(text, u, Unknown(resolved), r.unresolved)
    && match mode
       case Inline =>
         if AllResolved(text, resolved, u) then
           r.deliver && r.reason == None && IsInlined(text, resolved, u, r.text)
         else !r.deliver && r.reason == Some("alias_unresolved_failclosed") && r.text == ""
       case Legend =>
         && r.deliver && r.reason == None
         && exists names :: IsNameList(text, u, Known(resolved), names)
                            && if names == [] then r.text == text else IsLegend(text, names, resolved, notes, r.text, u)
  }

  /** `expandForAgent`. */
  method ExpandForAgent(text: string, resolved: Values, mode: Mode, notes: Option<Values>, u: Unicode)
    returns (r: Expansion)
    ensures IsExpansion(text, resolved, mode, notes, u, r)
  {
    var names := ParseAliasMarkers(text, u);
    var unresolved := Lacking(names, resolved);
    var resolvedNames := Having(names, resolved);
    PartsOfNameList(text, u, names, resolved);
    hide *;
    if mode == Inline {
      AllMarkersResolved(text, resolved, u, unresolved);
      if |unresolved| > 0 {
        r := Expansion(false, "", unresolved, Some("alias_unresolved_failclosed"));
      } else {
        r := Expansion(true, SubstituteInline(text, resolved, u), [], None);
        SubstituteIsSpliced(text, resolved, u);
      }
      InlineExpands(text, resolved, notes, u, r);
    } else if |resolvedNames| == 0 {
      r := Expansion(true, text, unresolved, None);
      LegendExpands(text, resolved, notes, u, resolvedNames, r);
    } else {
      EntriesAreLines(text, resolvedNames, resolved, notes, u);
      var legend := Join(Entries(resolvedNames, resolved, notes, u), "\n");
      r := Expansion(true, LegendDirective() + "\n" + legend + "\n\n" + text, unresolved, None);
      LegendIsThere(text, resolvedNames, resolved, notes, u, r.text);
      LegendExpands(text, resolved, notes, u, resolvedNames, r);
    }
  }

  lemma InlineExpands(text: string, resolved: Values, notes: Option<Values>, u: Unicode, r: Expansion)
    requires IsNameList(text, u, Unknown(resolved), r.unresolved)
    requires if AllResolved(text, resolved, u)
             then r.deliver && r.reason == None && IsInlined(text, resolved, u, r.text)
             else !r.deliver && r.reason == Some("alias_unresolved_failclosed") && r.text == ""
    ensures IsExpansion(text, resolved, Inline, notes, u, r)
  {
    hide IsNameList, AllResolved, IsInlined;
  }

  lemma LegendExpands(text: string, resolved: Values, notes: Option<Values>, u: Unicode, names: seq<string>,
                      r: Expansion)
    requires IsNameList(text, u, Unknown(resolved), r.unresolved) && r.deliver && r.reason == None
    requires IsNameList(text, u, Known(resolved), names)
    requires if names == [] then r.text == text else IsLegend(text, names, resolved, notes, r.text, u)
    ensures IsExpansion(text, resolved, Legend, notes, u, r)
  {
    hide IsNameList, IsLegend;
  }

  lemma LegendIsThere(
    text: string, names: seq<string>, resolved: Values, notes: Option<Values>, u: Unicode, out: string)
    requires names != [] && AllIn(names, resolved)
    requires var entries := Entries(names, resolved, notes, u);
             (forall i :: 0 <= i < |entries| ==> '\n' !in entries[i])
             && out == LegendDirective() + "\n" + Join(entries, "\n") + "\n\n" + text
    ensures IsLegend(text, names, resolved, notes, out, u)
  {
    hide Join, LegendDirective, Entry, Split;
    LegendLines(LegendDirective(), Entries(names, resolved, notes, u), text);
  }

  lemma EntriesAreLines(text: string, names: seq<string>, resolved: Values, notes: Option<Values>, u: Unicode)
    requires IsNameList(text, u, Known(resolved), names)
    ensures AllIn(names, resolved)
    ensures var entries := Entries(names, resolved, notes, u);
      forall i :: 0 <= i < |entries| ==> '\n' !in entries[i]
  {
    hide Entry, Marks, Precedes, IsValidName;
    forall i | 0 <= i < |names|
      ensures names[i] in resolved && IsValidName(names[i], u)
    {
      assert names[i] in names;
    }
    var entries := Entries(names, resolved, notes, u);
    hide IsNameList;
    forall i | 0 <= i < |entries|
      ensures '\n' !in entries[i]
    {
      EntryIsOneLine(names[i], resolved, notes, u);
    }
  }

  lemma AllMarkersResolved(text: string, resolved: Values, u: Unicode, unresolved: seq<string>)
    requires IsNameList(text, u, Unknown(resolved), unresolved)
    ensures unresolved == [] <==> AllResolved(text, resolved, u)
  {
    hide Marks, IsValidName, Precedes;
    if unresolved == [] {
      forall m, name | Marks(text, m, name, u) && IsValidName(name, u)
        ensures name in resolved
      {
        assert name !in unresolved;
      }
    } else {
      assert unresolved[0] in unresolved;
    }
  }

  lemma SubstituteIsSpliced(text: string, resolved: Values, u: Unicode)
    ensures IsInlined(text, resolved, u, SubstituteInline(text, resolved, u))
  {
    ScanIsSpliced(text, 0, resolved, u);
    MatchesAreMatchList(text, 0);
    forall spans | IsMatchList(text, 0, spans)
      ensures spans == Matches(text, 0)
    {
      MatchListUnique(text, 0, spans, Matches(text, 0));
    }
  }

  // ---------------------------------------------------------------- which markers a shell can still see

  /** `;;(` stands at `p`. */
  predicate OpensAt(text: string, p: nat) {
    p + 3 <= |text| && text[p] == ';' && text[p + 1] == ';' && text[p + 2] == '('
  }

  /** A valid marker starts at `p`. */
  predicate MarkerAt(text: string, p: nat, u: Unicode)
    requires p <= |text|
  {
    var m := MatchAt(text, p);
    m.Some? && IsValidName(Captured(text, Span(p, m.value), u), u)
  }

  /** An opening at `o`, and `rest` behind it. */
  ghost predicate OpensWith(s: string, o: nat, rest: string) {
    OpensAt(s, o) && s[o + 3..] == rest
  }

  /** An opening that starts no valid marker. */
  predicate Stray(text: string, p: nat, u: Unicode) {
    OpensAt(text, p) && !MarkerAt(text, p, u)
  }

  /** A value that can open no marker: not empty, and without the characters of an opening. */
  predicate Harmless(value: string) {
    value != "" && ';' !in value && '(' !in value
  }

  /** Every valid marker of the text has a harmless value. */
  ghost predicate AllHarmless(text: string, resolved: Values, u: Unicode) {
    forall m, name :: Marks(text, m, name, u) && IsValidName(name, u) ==>
      name in resolved && Harmless(Sanitize(resolved[name], ALIAS_VALUE_MAX, u))
  }

  ghost predicate HasMarker(text: string, u: Unicode) {
    exists m, name :: Marks(text, m, name, u) && IsValidName(name, u)
  }

  /** The text goes on with a valid name and a closing parenthesis. */
  predicate Completes(text: string, u: Unicode) {
    var k := ParenFrom(text, 0);
    k < |text| && text[k] == ')' && IsValidName(u.nfc(text[..k]), u)
  }

  /** Nothing opens inside a match. */
  lemma NoOpeningInside(text: string, m: Span, p: nat)
    requires IsMatch(text, m) && m.start < p < m.end
    ensures !OpensAt(text, p) && MatchAt(text, p) == None
  {
    assert p == m.end - 1 || p == m.end - 2 || p + 2 < m.end;
  }

  /** Where no match starts, the pass copies. */
  lemma {:induction false} CopiedUpTo(text: string, i: nat, j: nat, resolved: Values, u: Unicode)
    requires i <= j <= |text| && forall k :: i <= k < j ==> MatchAt(text, k) == None
    ensures SubstituteFrom(text, i, resolved, u) == text[i..j] + SubstituteFrom(text, j, resolved, u)
    decreases j - i
  {
    if i == j {
      assert text[i..j] == "";
    } else {
      hide *;
      assert MatchAt(text, i) == None;
      PassStep(text, i, resolved, u);
      CopiedUpTo(text, i + 1, j, resolved, u);
      SplitSlice(text, i, i + 1, j);
      assert text[i..i + 1] == [text[i]];
      Reassociate([text[i]], text[i + 1..j], SubstituteFrom(text, j, resolved, u));
    }
  }

  /** One step of the pass. */
  lemma PassStep(text: string, i: nat, resolved: Values, u: Unicode)
    requires i < |text|
    ensures var s, m := SubstituteFrom(text, i, resolved, u), MatchAt(text, i);
      && (m.None? ==> s == [text[i]] + SubstituteFrom(text, i + 1, resolved, u))
      && (m.Some? ==> IsMatch(text, Span(i, m.value))
                      && s == Replacement(text, Span(i, m.value), resolved, u)
                            + SubstituteFrom(text, m.value, resolved, u))
  {
    hide Replacement, IsMatch;
  }

  /** What the pass writes in its step at `i`, and where it goes on. */
  function Written(text: string, i: nat, resolved: Values, u: Unicode): string
    requires i < |text|
  {
    var m := MatchAt(text, i);
    if m.None? then [text[i]] else Replacement(text, Span(i, m.value), resolved, u)
  }

  function Next(text: string, i: nat): (r: nat)
    requires i < |text|
    ensures i < r <= |text|
  {
    var m := MatchAt(text, i);
    if m.None? then i + 1 else m.value
  }

  lemma PassWrites(text: string, i: nat, resolved: Values, u: Unicode)
    requires i < |text|
    ensures SubstituteFrom(text, i, resolved, u)
         == Written(text, i, resolved, u) + SubstituteFrom(text, Next(text, i), resolved, u)
  {
    hide Replacement, IsMatch;
  }

  /** An opening behind a step is behind all of it. */
  lemma OpeningIsAhead(text: string, i: nat, p: nat)
    requires i < p && OpensAt(text, p)
    ensures i < |text| && Next(text, i) <= p
  {
    var m := MatchAt(text, i);
    if m.Some? && p < m.value {
      NoOpeningInside(text, Span(i, m.value), p);
    }
  }

  /** What a match becomes when all values are harmless: a harmless value, or itself. */
  lemma ReplacedBy(text: string, m: Span, resolved: Values, u: Unicode)
    requires IsMatch(text, m) && AllHarmless(text, resolved, u)
    ensures MarkerAt(text, m.start, u) ==> Harmless(Replacement(text, m, resolved, u))
    ensures !MarkerAt(text, m.start, u) ==> Replacement(text, m, resolved, u) == text[m.start..m.end]
  {
    assert MatchAt(text, m.start) == Some(m.end);
    assert Marks(text, m, Captured(text, m, u), u);
    hide IsMatch, IsValidName, Sanitize, Harmless, MatchAt;
  }

  /** A copied match goes on, behind its opening, as the pass does from there. */
  lemma CopiedMatch(text: string, m: Span, resolved: Values, u: Unicode)
    requires IsMatch(text, m)
    ensures text[m.start + 3..m.end] + SubstituteFrom(text, m.end, resolved, u)
            == SubstituteFrom(text, m.start + 3, resolved, u)
  {
    forall k | m.start + 3 <= k < m.end
      ensures MatchAt(text, k) == None
    {
      NoOpeningInside(text, m, k);
    }
    hide MatchAt, SubstituteFrom;
    CopiedUpTo(text, m.start + 3, m.end, resolved, u);
  }

  lemma AfterOpening(text: string, p: nat)
    requires OpensAt(text, p)
    ensures MatchAt(text, p + 1) == None && MatchAt(text, p + 2) == None
  {
  }

  /** A stray opening is copied, and what follows it is what the pass makes of the rest. */
  lemma StrayIsCopied(text: string, p: nat, resolved: Values, u: Unicode)
    requires Stray(text, p, u) && AllHarmless(text, resolved, u)
    ensures SubstituteFrom(text, p, resolved, u) == text[p..p + 3] + SubstituteFrom(text, p + 3, resolved, u)
  {
    var r := MatchAt(text, p);
    if r.None? {
      AfterOpening(text, p);
      hide MatchAt, SubstituteFrom;
      CopiedUpTo(text, p, p + 3, resolved, u);
    } else {
      var m := Span(p, r.value);
      PassStep(text, p, resolved, u);
      ReplacedBy(text, m, resolved, u);
      CopiedMatch(text, m, resolved, u);
      hide *;
      var rest := SubstituteFrom(text, m.end, resolved, u);
      SplitSlice(text, p, p + 3, m.end);
      Reassociate(text[p..p + 3], text[p + 3..m.end], rest);
    }
  }

  lemma SplitSlice(text: string, i: nat, j: nat, k: nat)
    requires i <= j <= k <= |text|
    ensures text[i..k] == text[i..j] + text[j..k]
  {
  }

  /** Openings behind a first part. */
  lemma OpeningShifts(s: string, a: string, b: string, o: nat, k: nat, rest: string)
    requires s == a + b && k == |a| + o
    ensures OpensAt(s, k) <==> OpensAt(b, o)
    ensures OpensWith(s, k, rest) <==> OpensWith(b, o, rest)
  {
  }

  lemma OpeningHere(s: string, p: nat, text: string, rest: string)
    requires OpensAt(text, p) && s == text[p..p + 3] + rest
    ensures OpensWith(s, 0, rest)
  {
  }

  /** A stray opening of the text from `i` on shows up in the result. */
  lemma {:induction false} StrayShows(text: string, i: nat, p: nat, resolved: Values, u: Unicode) returns (o: nat)
    requires i <= p && Stray(text, p, u) && AllHarmless(text, resolved, u)
    ensures OpensWith(SubstituteFrom(text, i, resolved, u), o, SubstituteFrom(text, p + 3, resolved, u))
    decreases p - i
  {
    assert OpensAt(text, p) && p + 3 <= |text|;
    var s := SubstituteFrom(text, i, resolved, u);
    hide *;
    if i == p {
      o := 0;
      StrayIsCopied(text, p, resolved, u);
      OpeningHere(s, p, text, SubstituteFrom(text, p + 3, resolved, u));
    } else {
      OpeningIsAhead(text, i, p);
      PassWrites(text, i, resolved, u);
      var head, next := Written(text, i, resolved, u), Next(text, i);
      var k := StrayShows(text, next, p, resolved, u);
      o := |head| + k;
      OpeningShifts(s, head, SubstituteFrom(text, next, resolved, u), k, o, SubstituteFrom(text, p + 3, resolved, u));
    }
  }

  /** What a match became does not start with a parenthesis, nor with a semicolon and a parenthesis. */
  lemma MatchStart(text: string, j: nat, resolved: Values, u: Unicode)
    requires j < |text| && AllHarmless(text, resolved, u) && MatchAt(text, j).Some?
    ensures var s := SubstituteFrom(text, j, resolved, u);
            s != "" && s[0] != '(' && (s[0] == ';' && |s| > 1 ==> s[1] != '(')
  {
    PassStep(text, j, resolved, u);
    var m := Span(j, MatchAt(text, j).value);
    ReplacedBy(text, m, resolved, u);
    var v, rest := Replacement(text, m, resolved, u), SubstituteFrom(text, m.end, resolved, u);
    hide SubstituteFrom, Replacement, AllHarmless, MatchAt, MarkerAt;
    assert v[0] == (v + rest)[0];
    assert v[0] == ';' ==> v[1] == (v + rest)[1];
  }

  /** The two last characters of an opening in the result come from the text. */
  lemma SecondHalf(text: string, j: nat, resolved: Values, u: Unicode)
    requires j <= |text| && AllHarmless(text, resolved, u)
    requires var s := SubstituteFrom(text, j, resolved, u); |s| >= 2 && s[0] == ';' && s[1] == '('
    ensures j + 2 <= |text| && text[j] == ';' && text[j + 1] == '('
    ensures SubstituteFrom(text, j, resolved, u)[2..] == SubstituteFrom(text, j + 2, resolved, u)
  {
    var s := SubstituteFrom(text, j, resolved, u);
    assert j < |text|;
    var t := SubstituteFrom(text, j + 1, resolved, u);
    if MatchAt(text, j).Some? {
      MatchStart(text, j, resolved, u);
    }
    PassStep(text, j, resolved, u);
    assert s == [text[j]] + t && t[0] == '(';
    assert j + 1 < |text|;
    hide SubstituteFrom, AllHarmless, MatchAt, Replacement;
    if MatchAt(text, j + 1).Some? {
      MatchStart(text, j + 1, resolved, u);
    }
    PassStep(text, j + 1, resolved, u);
  }

  /** And every opening in the result is a stray opening of the text. */
  lemma {:induction false} OpeningIsStray(text: string, i: nat, o: nat, resolved: Values, u: Unicode) returns (p: nat)
    requires i <= |text| && AllHarmless(text, resolved, u)
    requires OpensAt(SubstituteFrom(text, i, resolved, u), o)
    ensures p + 3 <= |text| && Stray(text, p, u)
    ensures OpensWith(SubstituteFrom(text, i, resolved, u), o, SubstituteFrom(text, p + 3, resolved, u))
    decreases |text| - i
  {
    hide *;
    NotAtEnd(text, i, o, resolved, u);
    if |Written(text, i, resolved, u)| <= o {
      OpeningMoves(text, i, o, resolved, u);
      p := OpeningIsStray(text, Next(text, i), o - |Written(text, i, resolved, u)|, resolved, u);
      OpeningMovesBack(text, i, o, SubstituteFrom(text, p + 3, resolved, u), resolved, u);
    } else {
      p := i;
      OpeningInHead(text, i, o, resolved, u);
    }
  }

  /** An opening behind what one step of the pass writes. */
  lemma OpeningMoves(text: string, i: nat, o: nat, resolved: Values, u: Unicode)
    requires i < |text| && |Written(text, i, resolved, u)| <= o && OpensAt(SubstituteFrom(text, i, resolved, u), o)
    ensures OpensAt(SubstituteFrom(text, Next(text, i), resolved, u), o - |Written(text, i, resolved, u)|)
  {
    hide *;
    PassWrites(text, i, resolved, u);
    var head := Written(text, i, resolved, u);
    OpeningShifts(SubstituteFrom(text, i, resolved, u), head, SubstituteFrom(text, Next(text, i), resolved, u),
                  o - |head|, o, "");
  }

  lemma OpeningMovesBack(text: string, i: nat, o: nat, rest: string, resolved: Values, u: Unicode)
    requires i < |text| && |Written(text, i, resolved, u)| <= o
    requires OpensWith(SubstituteFrom(text, Next(text, i), resolved, u), o - |Written(text, i, resolved, u)|, rest)
    ensures OpensWith(SubstituteFrom(text, i, resolved, u), o, rest)
  {
    hide *;
    PassWrites(text, i, resolved, u);
    var head := Written(text, i, resolved, u);
    OpeningShifts(SubstituteFrom(text, i, resolved, u), head, SubstituteFrom(text, Next(text, i), resolved, u),
                  o - |head|, o, rest);
  }

  lemma NotAtEnd(text: string, i: nat, o: nat, resolved: Values, u: Unicode)
    requires i <= |text| && OpensAt(SubstituteFrom(text, i, resolved, u), o)
    ensures i < |text|
  {
  }

  /** An opening in what the pass writes in its first step. */
  lemma OpeningInHead(text: string, i: nat, o: nat, resolved: Values, u: Unicode)
    requires i < |text| && AllHarmless(text, resolved, u) && OpensAt(SubstituteFrom(text, i, resolved, u), o)
    requires o < |Written(text, i, resolved, u)|
    ensures i + 3 <= |text| && Stray(text, i, u)
    ensures OpensWith(SubstituteFrom(text, i, resolved, u), o, SubstituteFrom(text, i + 3, resolved, u))
  {
    var r := MatchAt(text, i);
    hide SubstituteFrom, AllHarmless, MatchAt, Replacement, IsMatch, Stray;
    if r.None? {
      OpeningAcrossStep(text, i, resolved, u);
    } else {
      var m := Span(i, r.value);
      PassStep(text, i, resolved, u);
      ReplacedBy(text, m, resolved, u);
      OpeningInCopy(text, m, Replacement(text, m, resolved, u), SubstituteFrom(text, r.value, resolved, u), o, u);
      CopiedMatch(text, m, resolved, u);
    }
  }

  lemma OpeningAcrossStep(text: string, i: nat, resolved: Values, u: Unicode)
    requires i < |text| && AllHarmless(text, resolved, u) && MatchAt(text, i).None?
    requires OpensAt(SubstituteFrom(text, i, resolved, u), 0)
    ensures Stray(text, i, u)
    ensures SubstituteFrom(text, i, resolved, u)[3..] == SubstituteFrom(text, i + 3, resolved, u)
  {
    var s, rest := SubstituteFrom(text, i, resolved, u), SubstituteFrom(text, i + 1, resolved, u);
    PassStep(text, i, resolved, u);
    hide SubstituteFrom, AllHarmless, MatchAt, Replacement;
    assert rest[0] == s[1] && rest[1] == s[2];
    SecondHalf(text, i + 1, resolved, u);
    assert s[3..] == rest[2..];
  }

  /** An opening that starts in what a match became starts a copied match. */
  lemma OpeningInCopy(text: string, m: Span, v: string, rest: string, o: nat, u: Unicode)
    requires IsMatch(text, m) && OpensAt(v + rest, o) && o < |v|
    requires Harmless(v) || v == text[m.start..m.end]
    requires !Harmless(v) ==> !MarkerAt(text, m.start, u)
    requires MarkerAt(text, m.start, u) ==> Harmless(v)
    ensures o == 0 && Stray(text, m.start, u) && (v + rest)[3..] == text[m.start + 3..m.end] + rest
  {
    assert v[o] == ';';
    assert !Harmless(v);
    hide MarkerAt, Harmless;
    assert forall k :: 0 <= k < |v| ==> (v + rest)[k] == v[k] == text[m.start + k];
    assert v[|v| - 1] == ')';
    assert o + 2 < |v|;
    assert !IsParen(text[m.start + o]) && IsParen(text[m.start + o + 2]);
    assert (v + rest)[3..] == v[3..] + rest;
  }

  /** Inline expansion with harmless values: an opening `;;(` is delivered exactly when the message has one that
      starts no valid marker. */
  lemma OpeningDeliveredIff(text: string, resolved: Values, u: Unicode)
    requires AllHarmless(text, resolved, u)
    ensures (exists o: nat :: OpensAt(SubstituteInline(text, resolved, u), o)) <==> exists p: nat :: Stray(text, p, u)
  {
    var out := SubstituteInline(text, resolved, u);
    assert out == SubstituteFrom(text, 0, resolved, u);
    hide SubstituteFrom, SubstituteInline, AllHarmless, MarkerAt;
    if o: nat :| OpensAt(out, o) {
      var p := OpeningIsStray(text, 0, o, resolved, u);
      assert Stray(text, p, u);
    }
    if p: nat :| Stray(text, p, u) {
      var o := StrayShows(text, 0, p, resolved, u);
      assert OpensAt(out, o);
    }
  }

  /** A valid marker is an opening, a valid name and a closing parenthesis. */
  lemma MarkerReads(s: string, u: Unicode)
    ensures HasMarker(s, u) <==> exists o: nat :: OpensAt(s, o) && Completes(s[o + 3..], u)
  {
    if m, name :| Marks(s, m, name, u) && IsValidName(name, u) {
      MarkerCompletes(s, m, u);
    }
    if o: nat :| OpensAt(s, o) && Completes(s[o + 3..], u) {
      CompletesMarker(s, o, u);
    }
  }

  lemma CompletesMarker(s: string, o: nat, u: Unicode)
    requires OpensAt(s, o) && Completes(s[o + 3..], u)
    ensures HasMarker(s, u)
  {
    var t := s[o + 3..];
    var k := ParenFrom(t, 0);
    var m := Span(o, o + 3 + k + 1);
    assert forall j :: o + 3 <= j < o + 3 + k ==> s[j] == t[j - o - 3];
    assert s[m.end - 1] == t[k];
    hide IsParen, ParenFrom, IsValidName;
    assert s[m.start + 3..m.end - 1] == t[..k];
    assert Marks(s, m, u.nfc(t[..k]), u);
  }

  lemma MarkerCompletes(s: string, m: Span, u: Unicode)
    requires IsMatch(s, m) && IsValidName(Captured(s, m, u), u)
    ensures OpensAt(s, m.start) && Completes(s[m.start + 3..], u)
  {
    var t, k := s[m.start + 3..], m.end - 1 - (m.start + 3);
    hide IsValidName;
    assert t[k] == s[m.end - 1] == ')';
    assert forall j :: 0 <= j < k ==> t[j] == s[m.start + 3 + j];
    assert ParenFrom(t, 0) == k;
    assert t[..k] == s[m.start + 3..m.end - 1];
  }

  /** Inline expansion with harmless values: a valid marker is delivered exactly when the message has an opening
      that starts no valid marker, and what the pass makes of the text behind it is a valid name and a closing
      parenthesis. */
  lemma MarkerDeliveredIff(text: string, resolved: Values, u: Unicode)
    requires AllHarmless(text, resolved, u)
    ensures HasMarker(SubstituteInline(text, resolved, u), u)
       <==> exists p: nat :: Stray(text, p, u) && Completes(SubstituteFrom(text, p + 3, resolved, u), u)
  {
    var out := SubstituteInline(text, resolved, u);
    MarkerReads(out, u);
    hide SubstituteFrom, AllHarmless, MarkerAt, Completes, HasMarker;
    if o: nat :| OpensAt(out, o) && Completes(out[o + 3..], u) {
      var p := OpeningIsStray(text, 0, o, resolved, u);
      assert Stray(text, p, u) && Completes(SubstituteFrom(text, p + 3, resolved, u), u);
    }
    if p: nat :| Stray(text, p, u) && Completes(SubstituteFrom(text, p + 3, resolved, u), u) {
      var o := StrayShows(text, 0, p, resolved, u);
      assert OpensAt(out, o) && Completes(out[o + 3..], u);
    }
  }

  /** What a caller can check beforehand: values that are harmless, and a message whose openings all start valid
      markers. Then no marker, valid or not, is delivered. */
  lemma NoMarkerIsDelivered(text: string, resolved: Values, u: Unicode)
    requires AllHarmless(text, resolved, u) && forall p: nat :: !Stray(text, p, u)
    ensures forall m: Span :: !IsMatch(SubstituteInline(text, resolved, u), m)
  {
    OpeningDeliveredIff(text, resolved, u);
    var out := SubstituteInline(text, resolved, u);
    hide SubstituteInline, Stray, AllHarmless;
    forall m: Span
      ensures !IsMatch(out, m)
    {
      assert !OpensAt(out, m.start);
    }
  }

  // Each of the three conditions is needed.

  /** The pass over a text with one valid marker between text that holds no match. */
  lemma OneMarker(pre: string, name: string, post: string, resolved: Values, u: Unicode)
    requires IsValidName(name, u) && u.nfc(name) == name && name in resolved && ';' !in post
    requires forall k :: 0 <= k < |pre| ==> MatchAt(pre + (";;(" + name + ")") + post, k) == None
    ensures SubstituteInline(pre + (";;(" + name + ")") + post, resolved, u)
         == pre + Sanitize(resolved[name], ALIAS_VALUE_MAX, u) + post
  {
    var text, v := pre + (";;(" + name + ")") + post, Sanitize(resolved[name], ALIAS_VALUE_MAX, u);
    var i, j := |pre|, |pre| + |name| + 4;
    hide *;
    MarkerThere(text, pre, name, post, u);
    MarkerReplaced(text, Span(i, j), name, resolved, u);
    CopiedUpTo(text, 0, i, resolved, u);
    CopiedUpTo(text, j, |text|, resolved, u);
    PassStep(text, i, resolved, u);
    NothingLeft(text, resolved, u);
    assert post + "" == post;
    assert pre + (v + post) == pre + v + post;
  }

  lemma MarkerReplaced(text: string, m: Span, name: string, resolved: Values, u: Unicode)
    requires IsMatch(text, m) && Captured(text, m, u) == name && IsValidName(name, u) && name in resolved
    ensures Replacement(text, m, resolved, u) == Sanitize(resolved[name], ALIAS_VALUE_MAX, u)
  {
    hide IsMatch, IsValidName, Sanitize;
  }

  lemma NothingLeft(text: string, resolved: Values, u: Unicode)
    ensures SubstituteFrom(text, |text|, resolved, u) == ""
  {
  }

  lemma MarkerThere(text: string, pre: string, name: string, post: string, u: Unicode)
    requires IsValidName(name, u) && u.nfc(name) == name && ';' !in post
    requires text == pre + (";;(" + name + ")") + post
    ensures var i, j := |pre|, |pre| + |name| + 4;
      && MatchAt(text, i) == Some(j) && IsMatch(text, Span(i, j)) && Captured(text, Span(i, j), u) == name
      && (forall k :: j <= k < |text| ==> MatchAt(text, k) == None)
      && text[0..i] == pre && text[j..|text|] == post
  {
    var i, j := |pre|, |pre| + |name| + 4;
    NameHasNoParen(name, u);
    assert text[i + 3..j - 1] == name;
    assert text[i] == ';' && text[i + 1] == ';' && text[i + 2] == '(' && text[j - 1] == ')';
    assert forall k :: i + 3 <= k < j - 1 ==> text[k] == name[k - i - 3];
    assert IsMatch(text, Span(i, j));
    assert forall k :: j <= k < |text| ==> text[k] == post[k - j];
  }

  lemma NameHasNoParen(name: string, u: Unicode)
    requires IsValidName(name, u)
    ensures forall i :: 0 <= i < |name| ==> !IsParen(name[i]) && name[i] != ';' && !IsStripped(name[i])
  {
    forall i | 0 <= i < |name|
      ensures !IsParen(name[i]) && name[i] != ';' && !IsStripped(name[i])
    {
      assert IsNameChar(name[i], u);
    }
  }

  /** Values are not looked at again: one that is itself a marker is delivered as it stands. */
  lemma MarkerInValueIsDelivered(a: string, b: string, u: Unicode)
    requires IsValidName(a, u) && u.nfc(a) == a && IsValidName(b, u) && u.nfc(b) == b
    requires u.nfc(";;(" + b + ")") == ";;(" + b + ")"
    ensures SubstituteInline(";;(" + a + ")", map[a := ";;(" + b + ")"], u) == ";;(" + b + ")"
  {
    var marker := ";;(" + b + ")";
    NameHasNoParen(b, u);
    SanitizedIsClean(marker, ALIAS_VALUE_MAX, u);
    hide Sanitize, SubstituteInline, IsStripped;
    assert Sanitize(marker, ALIAS_VALUE_MAX, u) == marker;
    OneMarker("", a, "", map[a := marker], u);
    assert "" + (";;(" + a + ")") + "" == ";;(" + a + ")";
  }

  /** An empty value lets the text around it come together to a marker. */
  lemma EmptyValueJoinsMarker(a: string, b: string, u: Unicode)
    requires IsValidName(a, u) && u.nfc(a) == a && IsValidName(b, u) && u.nfc("") == ""
    ensures SubstituteInline(";;" + (";;(" + a + ")") + ("(" + b + ")"), map[a := ""], u) == ";;(" + b + ")"
  {
    var post := "(" + b + ")";
    var text := ";;" + (";;(" + a + ")") + post;
    assert text[2] == ';' && text[3] == ';';
    assert forall k :: 0 <= k < 2 ==> MatchAt(text, k) == None;
    assert Sanitize("", ALIAS_VALUE_MAX, u) == "";
    NameHasNoParen(b, u);
    hide *;
    OneMarker(";;", a, post, map[a := ""], u);
    assert ";;" + "" + post == ";;(" + b + ")";
  }

  /** A marker around a marker becomes valid when the inner one is replaced. */
  lemma NestedMarkerIsDelivered(a: string, b: string, u: Unicode)
    requires IsValidName(a, u) && u.nfc(a) == a && IsValidName(b, u) && u.nfc(b) == b
    ensures SubstituteInline(";;(" + (";;(" + a + ")") + ")", map[a := b], u) == ";;(" + b + ")"
  {
    var text := ";;(" + (";;(" + a + ")") + ")";
    assert text[3] == ';' && text[4] == ';' && text[5] == '(' && text[2] == '(';
    assert IsParen(text[5]) && forall k :: 3 <= k < 5 ==> !IsParen(text[k]);
    assert ParenFrom(text, 3) == 5;
    assert forall k :: 0 <= k < 3 ==> MatchAt(text, k) == None;
    NameHasNoParen(b, u);
    SanitizedIsClean(b, ALIAS_VALUE_MAX, u);
    assert Sanitize(b, ALIAS_VALUE_MAX, u) == b;
    hide *;
    OneMarker(";;(", a, ")", map[a := b], u);
  }
}
