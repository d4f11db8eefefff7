/** Text operations the models share: searching, splitting, joining, trimming. */
module Text {

  /** `pat` occurs in `s` starting at `i`. */
  ghost predicate OccursAt(s: string, pat: string, i: int) {
    0 <= i && i + |pat| <= |s| && s[i..i + |pat|] == pat
  }

  ghost predicate Contains(s: string, pat: string) {
    exists i :: OccursAt(s, pat, i)
  }

  /** `s.indexOf(pat, from)`: the first occurrence at or after `from`, or -1. */
  function IndexOf(s: string, pat: string, from: nat): (r: int)
    ensures r == -1 <==> forall j :: from <= j ==> !OccursAt(s, pat, j)
    ensures r != -1 ==> from <= r && OccursAt(s, pat, r) && forall j :: from <= j < r ==> !OccursAt(s, pat, j)
    decreases |s| - from
  {
    if from + |pat| > |s| then -1
    else if s[from..from + |pat|] == pat then assert OccursAt(s, pat, from); from
    else IndexOf(s, pat, from + 1)
  }

  /** `s.includes(pat)`. */
  predicate Includes(s: string, pat: string)
    ensures Includes(s, pat) <==> Contains(s, pat)
  {
    assert forall i :: OccursAt(s, pat, i) ==> 0 <= i;
    IndexOf(s, pat, 0) != -1
  }

  predicate StartsWith(s: string, pat: string) {
    pat <= s
  }

  predicate EndsWith(s: string, pat: string) {
    |pat| <= |s| && s[|s| - |pat|..] == pat
  }

  /** Occurrences inside an occurrence are the occurrences inside its text. */
  lemma OccursWithin(s: string, outer: string, i: nat, inner: string, k: nat)
    requires OccursAt(s, outer, i) && k + |inner| <= |outer|
    ensures OccursAt(s, inner, i + k) <==> OccursAt(outer, inner, k)
  {
    var there, here := s[i + k..i + k + |inner|], outer[k..k + |inner|];
    forall j | 0 <= j < |inner|
      ensures there[j] == here[j]
    {
      assert s[i..i + |outer|][k + j] == outer[k + j];
    }
    assert there == here;
  }

  /** An occurrence of a concatenation is one of each part. */
  lemma OccursSplit(s: string, a: string, b: string, i: nat)
    requires OccursAt(s, a + b, i)
    ensures OccursAt(s, a, i) && OccursAt(s, b, i + |a|) && i + |a + b| <= |s|
  {
    var t := s[i..i + |a + b|];
    assert t[..|a|] == a && t[|a|..] == b;
    assert s[i..i + |a|] == t[..|a|];
    assert s[i + |a|..i + |a| + |b|] == t[|a|..];
  }

  lemma Reassociate(a: string, b: string, c: string)
    ensures (a + b) + c == a + (b + c)
  {
  }

  /** Parts glued together with a separator between neighbours. */
  function Join(parts: seq<string>, sep: string): (r: string) {
    if |parts| == 0 then ""
    else if |parts| == 1 then parts[0]
    else parts[0] + sep + Join(parts[1..], sep)
  }

  /** One unfolding of `Join`. */
  lemma JoinStep(parts: seq<string>, sep: string)
    requires |parts| > 1
    ensures Join(parts, sep) == parts[0] + sep + Join(parts[1..], sep)
  {
  }

  lemma JoinGrow(c: char, w: seq<string>, sep: string)
    requires w != []
    ensures Join([[c] + w[0]] + w[1..], sep) == [c] + Join(w, sep)
  {
    var v := [[c] + w[0]] + w[1..];
    assert v[1..] == w[1..];
  }

  lemma {:induction false} JoinAppend(a: seq<string>, b: seq<string>, sep: string)
    requires |a| > 0 && |b| > 0
    ensures Join(a + b, sep) == Join(a, sep) + sep + Join(b, sep)
  {
    assert |a| == 1 ==> Join(a, sep) == a[0];
    hide *;
    TailConcat(a, b);
    JoinStep(a + b, sep);
    if |a| == 1 {
      assert a[1..] + b == b;
    } else {
      JoinAppend(a[1..], b, sep);
      JoinStep(a, sep);
      var x, y := Join(a[1..], sep), Join(b, sep);
      assert a[0] + sep + (x + sep + y) == (a[0] + sep + x) + sep + y;
    }
  }

  /** `s.split(sep)` for a one-character separator: never empty. */
  function Split(s: string, sep: char): (r: seq<string>)
    ensures |r| > 0
    ensures forall i :: 0 <= i < |r| ==> sep !in r[i]
  {
    if |s| == 0 then [""]
    else
      var rest := Split(s[1..], sep);
      if s[0] == sep then [""] + rest
      else [[s[0]] + rest[0]] + rest[1..]
  }

  lemma {:induction false} JoinOfSplit(s: string, sep: char)
    ensures Join(Split(s, sep), [sep]) == s
  {
    if |s| > 0 {
      JoinOfSplit(s[1..], sep);
      var rest := Split(s[1..], sep);
      if s[0] == sep {
        assert ([""] + rest)[1..] == rest;
      } else {
        var r := [[s[0]] + rest[0]] + rest[1..];
        assert r[1..] == rest[1..];
        assert Split(s, sep) == r;
        assert s == [s[0]] + s[1..];
      }
    }
  }

  /** A separator-free first part is split off unchanged. */
  lemma {:induction false} SplitCons(a: string, b: string, sep: char)
    requires sep !in a
    ensures Split(a + [sep] + b, sep) == [a] + Split(b, sep)
    ensures Split(a, sep) == [a]
  {
    if |a| > 0 {
      SplitCons(a[1..], b, sep);
      assert (a + [sep] + b)[1..] == a[1..] + [sep] + b;
      assert [a[0]] + a[1..] == a;
    } else {
      assert (a + [sep] + b)[1..] == b;
    }
  }

  lemma {:induction false} SplitOfJoin(parts: seq<string>, sep: char)
    requires |parts| > 0
    requires forall i :: 0 <= i < |parts| ==> sep !in parts[i]
    ensures Split(Join(parts, [sep]), sep) == parts
  {
    SplitCons(parts[0], "", sep);
    if |parts| > 1 {
      SplitOfJoin(parts[1..], sep);
      SplitCons(parts[0], Join(parts[1..], [sep]), sep);
    }
  }

  /** One unfolding of `Split`. */
  lemma SplitStep(s: string, rest: seq<string>, sep: char)
    requires |s| > 0 && Split(s[1..], sep) == rest
    ensures Split(s, sep) == if s[0] == sep then [""] + rest else [[s[0]] + rest[0]] + rest[1..]
  {
  }

  lemma ConsConcat<T>(h: T, x: seq<T>, y: seq<T>)
    ensures [h] + (x + y) == ([h] + x) + y
  {
  }

  lemma TailConcat<T>(x: seq<T>, y: seq<T>)
    requires |x| > 0
    ensures (x + y)[0] == x[0] && (x + y)[1..] == x[1..] + y
  {
  }

  /** Splitting a concatenation at a separator is splitting both halves. */
  lemma {:induction false} SplitConcat(a: string, b: string, sep: char)
    ensures Split(a + [sep] + b, sep) == Split(a, sep) + Split(b, sep)
  {
    if |a| == 0 {
      SplitCons(a, b, sep);
    } else {
      hide *;
      SplitConcat(a[1..], b, sep);
      SplitGrow(a, a[1..], b, Split(a[1..], sep), Split(b, sep), sep);
    }
  }

  /** Adding one character in front of a split concatenation. */
  lemma SplitGrow(a: string, t: string, b: string, x: seq<string>, y: seq<string>, sep: char)
    requires |a| > 0 && t == a[1..] && |x| > 0 && x == Split(t, sep) && Split(t + [sep] + b, sep) == x + y
    ensures Split(a + [sep] + b, sep) == Split(a, sep) + y
  {
    hide *;
    var s := a + [sep] + b;
    TailConcat(a, [sep] + b);
    assert s == a + ([sep] + b) && t + [sep] + b == t + ([sep] + b);
    SplitStep(s, x + y, sep);
    SplitStep(a, x, sep);
    TailConcat(x, y);
    if a[0] == sep {
      ConsConcat("", x, y);
    } else {
      ConsConcat([a[0]] + x[0], x[1..], y);
    }
  }

  /** Every line but the last one loses one return at its end, if it has one; nothing else changes. */
  ghost predicate LosesReturns(before: seq<string>, after: seq<string>) {
    |after| == |before| && forall i :: 0 <= i < |before| ==>
      if i < |before| - 1 && before[i] != "" && before[i][|before[i]| - 1] == '\r' then before[i] == after[i] + "\r"
      else before[i] == after[i]
  }

  /** ECMAScript white space and line terminators (`\s`, `trim`). */
  predicate IsJsSpace(c: char) {
    '\t' <= c <= '\r' || c == ' ' || c == '\U{A0}' || c == '\U{1680}' || '\U{2000}' <= c <= '\U{200A}'
    || c == '\U{2028}' || c == '\U{2029}' || c == '\U{202F}' || c == '\U{205F}' || c == '\U{3000}' || c == '\U{FEFF}'
  }

  function TrimStart(s: string): (r: string)
    ensures |r| <= |s| && r == s[|s| - |r|..]
    ensures r != "" ==> !IsJsSpace(r[0])
    ensures forall i :: 0 <= i < |s| - |r| ==> IsJsSpace(s[i])
  {
    if s != "" && IsJsSpace(s[0]) then TrimStart(s[1..]) else s
  }

  function TrimEnd(s: string): (r: string)
    ensures |r| <= |s| && r == s[..|r|]
    ensures r != "" ==> !IsJsSpace(r[|r| - 1])
    ensures forall i :: |r| <= i < |s| ==> IsJsSpace(s[i])
  {
    if s != "" && IsJsSpace(s[|s| - 1]) then TrimEnd(s[..|s| - 1]) else s
  }

  function Trim(s: string): string {
    TrimEnd(TrimStart(s))
  }

  /** Only white space is trimmed to nothing. */
  lemma TrimBlank(s: string)
    ensures Trim(s) == "" <==> forall i :: 0 <= i < |s| ==> IsJsSpace(s[i])
  {
    hide IsJsSpace;
    var t := TrimStart(s);
    assert t != "" ==> t[0] == s[|s| - |t|];
  }

  /** Trimming removes exactly the padding around text that starts and ends with something else. */
  lemma TrimPadded(a: string, j: string, b: string)
    requires forall i :: 0 <= i < |a| ==> IsJsSpace(a[i])
    requires forall i :: 0 <= i < |b| ==> IsJsSpace(b[i])
    requires j != "" && !IsJsSpace(j[0]) && !IsJsSpace(j[|j| - 1])
    ensures Trim(a + j + b) == j
  {
    hide IsJsSpace;
    TrimStartPadded(a, j + b);
    assert a + j + b == a + (j + b);
    TrimEndPadded(j, b);
  }

  lemma {:induction false} TrimStartPadded(a: string, rest: string)
    requires forall i :: 0 <= i < |a| ==> IsJsSpace(a[i])
    requires rest != "" && !IsJsSpace(rest[0])
    ensures TrimStart(a + rest) == rest
  {
    if a == "" {
      assert a + rest == rest;
    } else {
      assert (a + rest)[1..] == a[1..] + rest;
      TrimStartPadded(a[1..], rest);
    }
  }

  lemma {:induction false} TrimEndPadded(rest: string, b: string)
    requires forall i :: 0 <= i < |b| ==> IsJsSpace(b[i])
    requires rest != "" && !IsJsSpace(rest[|rest| - 1])
    ensures TrimEnd(rest + b) == rest
  {
    if b == "" {
      assert rest + b == rest;
    } else {
      var s := rest + b;
      assert s[..|s| - 1] == rest + b[..|b| - 1];
      TrimEndPadded(rest, b[..|b| - 1]);
    }
  }
}
