/** Envelope markers of agent delegation: defanging content and reading back reply authority
    (shared/agent-delegation.ts). */
module Delegation {
  import opened Results
  import opened Text
  import opened Json
  import Utf8

  // ---------------------------------------------------------------- markers

  /** Characters a marker has between its angle brackets. */
  ghost predicate Plain(s: string) {
    forall i :: 0 <= i < |s| ==> s[i] != '<' && s[i] != '>' && s[i] != '[' && s[i] != ']'
  }

  ghost predicate IsMarker(m: string) {
    |m| >= 2 && m[0] == '<' && m[|m| - 1] == '>' && Plain(m[1..|m| - 1])
  }

  function Marker(body: string): (r: string)
    requires Plain(body)
    ensures IsMarker(r) && |r| == |body| + 2 && r[1..|r| - 1] == body
  {
    var r := "<" + body + ">";
    assert r[1..|r| - 1] == body;
    r
  }

  function SenderMarker(): (r: string)
    ensures IsMarker(r)
  {
    assert Plain("imcodes-agent-delegation-sender-v1");
    Marker("imcodes-agent-delegation-sender-v1")
  }

  function ReplyMarker(): (r: string)
    ensures IsMarker(r) && |r| == 47 && r[45] == '1'
  {
    var a, b := "imcodes-agent-delegation", "-reply-instruction-v1";
    assert Plain(a) && Plain(b);
    var r := Marker(a + b);
    assert |r| == 47 && r[1] == r[1..46][0] && r[45] == r[1..46][44];
    r
  }

  function StructuredMarker(): (r: string)
    ensures IsMarker(r) && |r| == 47 && r[45] == '2' && r[1] == 'i'
  {
    var a, b := "imcodes-agent-delegation", "-reply-instruction-v2";
    assert Plain(a) && Plain(b);
    var r := Marker(a + b);
    assert |r| == 47 && r[1] == r[1..46][0] && r[45] == r[1..46][44];
    r
  }

  function CompletionMarker(): (r: string)
    ensures IsMarker(r)
  {
    assert Plain("imcodes-delegation-completed-v1");
    Marker("imcodes-delegation-completed-v1")
  }

  /** `AGENT_DELEGATION_TRUSTED_ENVELOPE_MARKERS`. */
  function Markers(): (r: seq<string>)
    ensures AllMarkers(r) && |r| == 4
  {
    hide SenderMarker, ReplyMarker, StructuredMarker, CompletionMarker, IsMarker;
    [SenderMarker(), ReplyMarker(), StructuredMarker(), CompletionMarker()]
  }

  ghost predicate AllMarkers(ms: seq<string>) {
    forall i :: 0 <= i < |ms| ==> IsMarker(ms[i])
  }

  /** What stands in place of a marker. */
  function Removed(m: string): (r: string)
    requires IsMarker(m)
    ensures |r| > 0 && r[0] == '[' && '<' !in r
  {
    assert Plain(m[1..|m| - 1]);
    "[forged " + m[1..|m| - 1] + " removed]"
  }

  // ---------------------------------------------------------------- defanging

  /** `s.split(pat)`. */
  function SplitText(s: string, pat: string): (r: seq<string>)
    requires pat != ""
    ensures |r| > 0
    decreases |s|
  {
    if s == "" then [""]
    else if pat <= s then [""] + SplitText(s[|pat|..], pat)
    else
      var rest := SplitText(s[1..], pat);
      [[s[0]] + rest[0]] + rest[1..]
  }

  /** One marker replaced, reading left to right. */
  function Replace(s: string, m: string): string
    requires IsMarker(m)
  {
    if s == "" then ""
    else if m <= s then Removed(m) + Replace(s[|m|..], m)
    else [s[0]] + Replace(s[1..], m)
  }

  /** The marker of `ms` that `s` starts with. */
  function StartsWithOne(s: string, ms: seq<string>): (r: Option<nat>)
    ensures r.Some? ==> r.value < |ms| && ms[r.value] <= s && forall i :: 0 <= i < r.value ==> !(ms[i] <= s)
    ensures r.None? <==> forall i :: 0 <= i < |ms| ==> !(ms[i] <= s)
  {
    if ms == [] then None
    else
      var n := |ms| - 1;
      var earlier := StartsWithOne(s, ms[..n]);
      if earlier.Some? then earlier else if ms[n] <= s then Some(n) else None
  }

  /** All markers of `ms` replaced in one reading of the text. */
  function Defang(s: string, ms: seq<string>): string
    requires AllMarkers(ms)
  {
    if s == "" then ""
    else
      var k := StartsWithOne(s, ms);
      if k.Some? then
        assert IsMarker(ms[k.value]);
        Removed(ms[k.value]) + Defang(s[|ms[k.value]|..], ms)
      else [s[0]] + Defang(s[1..], ms)
  }

  /** `split(marker).join(…)` is replacement. */
  lemma {:induction false} SplitJoinReplaces(s: string, m: string)
    requires IsMarker(m)
    ensures Join(SplitText(s, m), Removed(m)) == Replace(s, m)
    decreases |s|
  {
    MarkerIsText(m);
    hide *;
    if s == "" {
      NothingToSplit(m);
    } else if m <= s {
      SplitJoinReplaces(s[|m|..], m);
      SplitHere(s, m);
    } else {
      SplitJoinReplaces(s[1..], m);
      SplitLater(s, m);
    }
  }

  lemma NothingToSplit(m: string)
    requires IsMarker(m)
    ensures Join(SplitText("", m), Removed(m)) == Replace("", m)
  {
  }

  lemma SplitHere(s: string, m: string)
    requires IsMarker(m) && s != "" && m != "" && m <= s
    requires Join(SplitText(s[|m|..], m), Removed(m)) == Replace(s[|m|..], m)
    ensures Join(SplitText(s, m), Removed(m)) == Replace(s, m)
  {
    hide Removed, IsMarker;
    var rest := SplitText(s[|m|..], m);
    assert ([""] + rest)[1..] == rest;
    JoinStep([""] + rest, Removed(m));
    assert "" + Removed(m) == Removed(m);
  }

  lemma SplitLater(s: string, m: string)
    requires IsMarker(m) && s != "" && m != "" && !(m <= s)
    requires Join(SplitText(s[1..], m), Removed(m)) == Replace(s[1..], m)
    ensures Join(SplitText(s, m), Removed(m)) == Replace(s, m)
  {
    hide Removed, IsMarker, Join;
    JoinGrow(s[0], SplitText(s[1..], m), Removed(m));
  }

  /** What holds no opening bracket is copied. */
  lemma {:induction false} DefangSkips(p: string, t: string, ms: seq<string>)
    requires AllMarkers(ms) && '<' !in p
    ensures Defang(p + t, ms) == p + Defang(t, ms)
  {
    hide *;
    if p == "" {
      assert p + t == t && p + Defang(t, ms) == Defang(t, ms);
    } else {
      DefangSkips(p[1..], t, ms);
      DefangOther(p, t, ms);
      assert [p[0]] + (p[1..] + Defang(t, ms)) == p + Defang(t, ms);
    }
  }

  lemma DefangOther(p: string, t: string, ms: seq<string>)
    requires AllMarkers(ms) && p != "" && p[0] != '<'
    ensures Defang(p + t, ms) == [p[0]] + Defang(p[1..] + t, ms)
  {
    var s := p + t;
    assert s[1..] == p[1..] + t && s[0] == p[0];
    NoMarkerAt(s, ms);
  }

  lemma NoMarkerAt(s: string, ms: seq<string>)
    requires AllMarkers(ms) && (s == "" || s[0] != '<')
    ensures StartsWithOne(s, ms) == None
  {
    forall i | 0 <= i < |ms|
      ensures !(ms[i] <= s)
    {
      assert IsMarker(ms[i]);
    }
  }

  lemma {:induction false} ReplaceSkips(p: string, t: string, m: string)
    requires IsMarker(m) && '<' !in p
    ensures Replace(p + t, m) == p + Replace(t, m)
  {
    if p == "" {
      assert p + t == t;
    } else {
      var s := p + t;
      assert s[1..] == p[1..] + t && s[0] == p[0];
      ReplaceSkips(p[1..], t, m);
      assert Replace(s, m) == [s[0]] + Replace(s[1..], m);
      hide *;
      assert [p[0]] + (p[1..] + Replace(t, m)) == p + Replace(t, m);
    }
  }

  /** One unfolding of `Defang`. */
  lemma DefangStep(s: string, ms: seq<string>)
    requires AllMarkers(ms) && s != ""
    ensures StartsWithOne(s, ms).None? ==> Defang(s, ms) == [s[0]] + Defang(s[1..], ms)
    ensures StartsWithOne(s, ms).Some? ==>
      var m := ms[StartsWithOne(s, ms).value];
      IsMarker(m) && 0 < |m| <= |s| && Defang(s, ms) == Removed(m) + Defang(s[|m|..], ms) && Defang(s, ms)[0] == '['
  {
  }

  /** Defanging makes no text out of pieces: what the result starts with, the original starts with. */
  lemma {:induction false} NothingNew(x: string, s: string, ms: seq<string>)
    requires AllMarkers(ms) && '[' !in x && x <= Defang(s, ms)
    ensures x <= s
  {
    if x != "" {
      assert x[0] == Defang(s, ms)[0];
      DefangStep(s, ms);
      hide *;
      if StartsWithOne(s, ms).None? {
        var d := Defang(s[1..], ms);
        assert x[1..] <= d;
        NothingNew(x[1..], s[1..], ms);
        assert x == [x[0]] + x[1..] && s == [s[0]] + s[1..];
      }
    }
  }

  /** Replacing one more marker afterwards is replacing it in the same reading. */
  lemma {:induction false} OneMoreMarker(s: string, ms: seq<string>, m: string)
    requires AllMarkers(ms) && IsMarker(m) && AllMarkers(ms + [m])
    ensures Replace(Defang(s, ms), m) == Defang(s, ms + [m])
    decreases |s|
  {
    if s != "" {
      StartsWithOneMore(s, ms, m);
      DefangStep(s, ms);
      DefangStep(s, ms + [m]);
      MarkerIsText(m);
      hide *;
      var k := StartsWithOne(s, ms);
      if k.Some? {
        var hit := ms[k.value];
        OneMoreMarker(s[|hit|..], ms, m);
        RemovedIsPlain(hit);
        ReplaceSkips(Removed(hit), Defang(s[|hit|..], ms), m);
      } else if m <= s {
        OneMoreMarker(s[|m|..], ms, m);
        DefangKeeps(s, ms, m);
        ReplaceHere(m, Defang(s[|m|..], ms));
      } else {
        OneMoreMarker(s[1..], ms, m);
        NotNew(s, ms, m);
        ReplaceOne(s[0], Defang(s[1..], ms), m);
      }
    }
  }

  lemma StartsWithOneMore(s: string, ms: seq<string>, m: string)
    ensures var k, n := StartsWithOne(s, ms), StartsWithOne(s, ms + [m]);
            (k.Some? ==> n == k && (ms + [m])[n.value] == ms[k.value])
            && (k.None? && m <= s ==> n == Some(|ms|) && (ms + [m])[|ms|] == m) && (k.None? && !(m <= s) ==> n == None)
  {
    assert (ms + [m])[..|ms|] == ms;
  }

  lemma RemovedIsPlain(m: string)
    requires IsMarker(m)
    ensures '<' !in Removed(m)
  {
  }

  /** A marker that is not among those replaced comes through as it is. */
  lemma DefangKeeps(s: string, ms: seq<string>, m: string)
    requires AllMarkers(ms) && IsMarker(m) && m <= s && s != "" && StartsWithOne(s, ms).None?
    ensures |m| <= |s| && Defang(s, ms) == m + Defang(s[|m|..], ms)
  {
    hide *;
    MarkerIsText(m);
    MarkerTail(m);
    DefangStep(s, ms);
    var p, t := m[1..], s[|m|..];
    HeadAndTail(s, m);
    DefangSkips(p, t, ms);
    Reassociate([s[0]], p, Defang(t, ms));
  }

  lemma HeadAndTail(s: string, m: string)
    requires m != "" && m <= s
    ensures m == [s[0]] + m[1..] && s[1..] == m[1..] + s[|m|..]
  {
  }

  lemma NotNew(s: string, ms: seq<string>, m: string)
    requires AllMarkers(ms) && IsMarker(m) && !(m <= s)
    ensures !(m <= Defang(s, ms))
  {
    MarkerTail(m);
    if m <= Defang(s, ms) {
      NothingNew(m, s, ms);
    }
  }

  lemma ReplaceOne(c: char, d: string, m: string)
    requires IsMarker(m) && !(m <= [c] + d)
    ensures Replace([c] + d, m) == [c] + Replace(d, m)
  {
    assert ([c] + d)[1..] == d;
  }

  lemma MarkerTail(m: string)
    requires IsMarker(m)
    ensures '<' !in m[1..] && '[' !in m && m[0] == '<'
  {
    var inner := m[1..|m| - 1];
    assert m == "<" + inner + ">";
    assert m[1..] == inner + ">";
  }

  lemma ReplaceHere(m: string, d: string)
    requires IsMarker(m)
    ensures Replace(m + d, m) == Removed(m) + Replace(d, m)
  {
    assert (m + d)[|m|..] == d;
  }

  lemma {:induction false} DefangNothing(s: string)
    ensures Defang(s, []) == s
  {
    if s != "" {
      DefangNothing(s[1..]);
      assert s == [s[0]] + s[1..];
    }
  }

  /** `neutralizeAgentDelegationEnvelopeMarkers`: one replacement after another, which comes to replacing
      all markers in a single reading. */
  method NeutralizeMarkers(text: string) returns (result: string)
    ensures result == Defang(text, Markers())
  {
    var markers := Markers();
    result := text;
    DefangNothing(text);
    hide Markers, IsMarker, Defang, Replace, Removed, SplitText;
    for i := 0 to |markers|
      invariant AllMarkers(markers[..i])
      invariant result == Defang(text, markers[..i])
    {
      var marker := markers[i];
      assert markers[..i + 1] == markers[..i] + [marker];
      OneMoreMarker(text, markers[..i], marker);
      if !Includes(result, marker) {
        NotThere(result, marker);
        continue;
      }
      SplitJoinReplaces(result, marker);
      MarkerIsText(marker);
      result := Join(SplitText(result, marker), Removed(marker));
    }
    assert markers[..|markers|] == markers;
  }

  lemma MarkerIsText(m: string)
    requires IsMarker(m)
    ensures m != ""
  {
  }

  lemma {:induction false} NotThere(s: string, m: string)
    requires IsMarker(m) && !Contains(s, m)
    ensures Replace(s, m) == s
  {
    if s != "" {
      TailOccurrences(s, m);
      assert s == [s[0]] + s[1..];
      hide IsMarker, Removed, Contains;
      NotThere(s[1..], m);
    }
  }

  lemma TailOccurrences(s: string, m: string)
    requires s != ""
    ensures Contains(s, m) <==> m <= s || Contains(s[1..], m)
  {
    forall i: nat
      ensures OccursAt(s[1..], m, i) <==> OccursAt(s, m, i + 1)
    {
      if i + 1 + |m| <= |s| {
        assert s[i + 1..i + 1 + |m|] == s[1..][i..i + |m|];
      }
    }
    assert |m| <= |s| ==> s[0..0 + |m|] == s[..|m|];
    assert OccursAt(s, m, 0) <==> m <= s;
    if i :| OccursAt(s, m, i) && i > 0 {
      assert OccursAt(s[1..], m, i - 1);
    }
  }

  /** Neutralised text holds none of the markers. */
  lemma DefangedIsClean(s: string, ms: seq<string>, m: string)
    requires AllMarkers(ms) && m in ms
    ensures !Contains(Defang(s, ms), m)
    decreases |s|
  {
    forall i: nat
      ensures !OccursAt(Defang(s, ms), m, i)
    {
      DefangedIsCleanAt(s, ms, m, i);
    }
  }

  lemma {:induction false} DefangedIsCleanAt(s: string, ms: seq<string>, m: string, i: nat)
    requires AllMarkers(ms) && m in ms
    ensures !OccursAt(Defang(s, ms), m, i)
    decreases |s|
  {
    hide *;
    MarkerAmong(m, ms);
    if s == "" {
      NowhereInNothing(ms, m, i);
    } else if OccursAt(Defang(s, ms), m, i) {
      DefangStep(s, ms);
      var k := StartsWithOne(s, ms);
      if i == 0 {
        StartsThere(Defang(s, ms), m);
        NothingNew(m, s, ms);
      } else {
        var hit := if k.Some? then ms[k.value] else [s[0]];
        var put := if k.Some? then Removed(hit) else hit;
        assert k.Some? ==> '<' !in put by {
          if k.Some? {
            RemovedIsPlain(hit);
          }
        }
        Behind(put, Defang(s[|hit|..], ms), m, i);
        DefangedIsCleanAt(s[|hit|..], ms, m, i - |put|);
      }
    }
  }

  lemma MarkerAmong(m: string, ms: seq<string>)
    requires AllMarkers(ms) && m in ms
    ensures IsMarker(m) && m != "" && '[' !in m && m[0] == '<'
  {
    assert IsMarker(m);
    MarkerTail(m);
  }

  lemma NowhereInNothing(ms: seq<string>, m: string, i: nat)
    requires AllMarkers(ms) && m != ""
    ensures !OccursAt(Defang("", ms), m, i)
  {
  }

  lemma StartsThere(d: string, m: string)
    requires OccursAt(d, m, 0) && m != ""
    ensures m <= d && m[0] == d[0]
  {
  }

  /** An occurrence that starts past `a` lies in `b`, and one inside `a` starts with a character of `a`. */
  lemma Behind(a: string, b: string, m: string, i: nat)
    requires m != "" && OccursAt(a + b, m, i) && 0 < i && (m[0] !in a || |a| == 1)
    ensures i >= |a| && OccursAt(b, m, i - |a|)
  {
    var s := a + b;
    assert s[i..i + |m|][0] == s[i];
    assert forall k :: 0 <= k < |a| ==> s[k] == a[k] && a[k] in a;
    assert i >= |a|;
    assert s[i..i + |m|] == b[i - |a|..i - |a| + |m|];
  }

  /** Text without markers is not touched. */
  lemma {:induction false} CleanIsKept(s: string, ms: seq<string>)
    requires AllMarkers(ms) && forall i :: 0 <= i < |ms| ==> !Contains(s, ms[i])
    ensures Defang(s, ms) == s
  {
    if s != "" {
      forall i | 0 <= i < |ms|
        ensures !(ms[i] <= s) && !Contains(s[1..], ms[i])
      {
        TailOccurrences(s, ms[i]);
      }
      hide Contains;
      CleanIsKept(s[1..], ms);
      assert s == [s[0]] + s[1..];
    }
  }

  /** None of the envelope markers is left in neutralised text. */
  lemma NoEnvelopeIsLeft(text: string)
    ensures !Contains(Defang(text, Markers()), "<" + "imcodes-agent-delegation-sender-v1" + ">")
    ensures !Contains(Defang(text, Markers()), "<" + ("imcodes-agent-delegation" + "-reply-instruction-v1") + ">")
    ensures !Contains(Defang(text, Markers()), "<" + ("imcodes-agent-delegation" + "-reply-instruction-v2") + ">")
    ensures !Contains(Defang(text, Markers()), "<" + "imcodes-delegation-completed-v1" + ">")
  {
    var ms := Markers();
    EnvelopeMarkers();
    assert ms[0] in ms && ms[1] in ms && ms[2] in ms && ms[3] in ms;
    hide *;
    DefangedIsClean(text, ms, ms[0]);
    DefangedIsClean(text, ms, ms[1]);
    DefangedIsClean(text, ms, ms[2]);
    DefangedIsClean(text, ms, ms[3]);
  }

  lemma EnvelopeMarkers()
    ensures Markers() == ["<" + "imcodes-agent-delegation-sender-v1" + ">",
                          "<" + ("imcodes-agent-delegation" + "-reply-instruction-v1") + ">",
                          "<" + ("imcodes-agent-delegation" + "-reply-instruction-v2") + ">",
                          "<" + "imcodes-delegation-completed-v1" + ">"]
    ensures Markers()[2] == StructuredMarker()
  {
  }

  /** What is removed stays named. */
  lemma RemovedNames(body: string)
    requires Plain(body)
    ensures Removed(Marker(body)) == "[forged " + body + " removed]"
  {
  }

  // ---------------------------------------------------------------- session names and ids

  predicate IsAlnum(c: char) {
    'a' <= c <= 'z' || 'A' <= c <= 'Z' || '0' <= c <= '9'
  }

  /** `[A-Za-z0-9_-]+`. */
  predicate IsBase64Url(s: string) {
    s != "" && forall i :: 0 <= i < |s| ==> IsAlnum(s[i]) || s[i] == '_' || s[i] == '-'
  }

  predicate IsProjectName(s: string) {
    s != "" && forall i :: 0 <= i < |s| ==> IsAlnum(s[i]) || s[i] == '_' || s[i] == '-' || s[i] == '.'
  }

  predicate IsRole(s: string) {
    s == "brain" || (|s| > 1 && s[0] == 'w' && forall i :: 1 <= i < |s| ==> '0' <= s[i] <= '9')
  }

  /** `isCanonicalAgentDelegationSessionName`: the name pattern; trimmed, not the broadcast name and not an
      agent type follow from it. */
  predicate IsSessionName(s: string) {
    "deck_" <= s
    && var name := s[5..];
       ("sub_" <= name && IsBase64Url(name[4..]))
       || exists k :: 1 <= k < |name| && name[k] == '_' && IsProjectName(name[..k]) && IsRole(name[k + 1..])
  }

  const AGENT_DELEGATION_ID_MAX_BYTES := 256

  /** `isAgentDelegationOpaqueId`; the permitted characters take one byte each. */
  predicate IsOpaqueId(s: string) {
    IsBase64Url(s) && |s| <= AGENT_DELEGATION_ID_MAX_BYTES
  }

  /** An id is acceptable exactly when it is not empty, takes at most 256 bytes, and consists of letters, digits,
      underscores and hyphens. */
  lemma OpaqueIdIff(s: string)
    ensures IsOpaqueId(s) <==>
            s != "" && ByteLength(s) <= 256
            && forall c :: c in s ==> 'a' <= c <= 'z' || 'A' <= c <= 'Z' || '0' <= c <= '9' || c == '_' || c == '-'
  {
    if IsBase64Url(s) {
      OneByteEach(s);
    }
    assert forall i :: 0 <= i < |s| ==> s[i] in s;
  }

  lemma {:induction false} OneByteEach(s: string)
    requires forall i :: 0 <= i < |s| ==> s[i] < '\U{80}'
    ensures ByteLength(s) == |s|
  {
    Utf8.EncodedWidths(s);
    if s != "" {
      OneByteEach(s[1..]);
    }
  }

  /** One or more letters, digits and characters of `other`. */
  ghost predicate IsWord(s: string, other: string) {
    s != "" && forall c :: c in s ==> 'a' <= c <= 'z' || 'A' <= c <= 'Z' || '0' <= c <= '9' || c in other
  }

  ghost predicate IsNumber(s: string) {
    s != "" && forall c :: c in s ==> '0' <= c <= '9'
  }

  ghost predicate IsWorker(role: string) {
    role == "brain" || exists number :: role == "w" + number && IsNumber(number)
  }

  ghost predicate IsSubName(name: string) {
    exists id :: name == "sub_" + id && IsWord(id, "_-")
  }

  ghost predicate IsWorkerName(name: string) {
    exists project, role :: name == project + "_" + role && IsWord(project, "_-.") && IsWorker(role)
  }

  lemma WordIff(s: string)
    ensures IsBase64Url(s) <==> IsWord(s, "_-")
    ensures IsProjectName(s) <==> IsWord(s, "_-.")
  {
    assert forall i :: 0 <= i < |s| ==> s[i] in s;
  }

  lemma RoleIff(s: string)
    ensures IsRole(s) <==> IsWorker(s)
  {
    forall number | s == "w" + number
      ensures IsNumber(number) ==> IsRole(s)
    {
      assert forall i :: 1 <= i < |s| ==> s[i] == number[i - 1] && number[i - 1] in number;
    }
    if s != "brain" && IsRole(s) {
      assert s == "w" + s[1..];
      assert forall i :: 1 <= i < |s| ==> s[i] == s[1..][i - 1];
      assert IsNumber(s[1..]);
    }
  }

  /** A session name is `deck_sub_` and an id, or `deck_`, a project, an underscore and a role: `brain`, or `w` and a
      number. */
  lemma SessionNameIff(s: string)
    ensures IsSessionName(s) <==> exists name :: s == "deck_" + name && (IsSubName(name) || IsWorkerName(name))
  {
    hide IsBase64Url, IsProjectName, IsRole, IsSubName, IsWorkerName;
    if "deck_" <= s {
      NameParts(s[5..]);
      assert s == "deck_" + s[5..];
    }
    forall name | s == "deck_" + name
      ensures "deck_" <= s && name == s[5..]
    {
    }
  }

  lemma NameParts(name: string)
    ensures IsSubName(name) <==> "sub_" <= name && IsBase64Url(name[4..])
    ensures IsWorkerName(name) <==>
            exists k :: 1 <= k < |name| && name[k] == '_' && IsProjectName(name[..k]) && IsRole(name[k + 1..])
  {
    hide IsBase64Url, IsProjectName, IsRole, IsSubName, IsWorkerName;
    SubNameParts(name);
    forall k | 1 <= k < |name| && name[k] == '_' && IsProjectName(name[..k]) && IsRole(name[k + 1..])
      ensures IsWorkerName(name)
    {
      WorkerNameFrom(name, k);
    }
    if IsWorkerName(name) {
      var k := WorkerNameCut(name);
    }
  }

  lemma SubNameParts(name: string)
    ensures IsSubName(name) <==> "sub_" <= name && IsBase64Url(name[4..])
  {
    hide IsBase64Url, IsWord;
    if "sub_" <= name {
      assert name == "sub_" + name[4..];
      WordIff(name[4..]);
    }
    forall id | name == "sub_" + id
      ensures "sub_" <= name && name[4..] == id
    {
    }
  }

  lemma WorkerNameFrom(name: string, k: nat)
    requires 1 <= k < |name| && name[k] == '_' && IsProjectName(name[..k]) && IsRole(name[k + 1..])
    ensures IsWorkerName(name)
  {
    hide IsProjectName, IsRole, IsWord, IsWorker;
    WordIff(name[..k]);
    RoleIff(name[k + 1..]);
    assert name == name[..k] + "_" + name[k + 1..];
  }

  lemma WorkerNameCut(name: string) returns (k: nat)
    requires IsWorkerName(name)
    ensures 1 <= k < |name| && name[k] == '_' && IsProjectName(name[..k]) && IsRole(name[k + 1..])
  {
    hide IsProjectName, IsRole, IsWord, IsWorker;
    var project, role :| name == project + "_" + role && IsWord(project, "_-.") && IsWorker(role);
    WordIff(project);
    RoleIff(role);
    ProjectIsNamed(project);
    k := |project|;
    assert name[..k] == project && name[k + 1..] == role;
  }

  lemma ProjectIsNamed(s: string)
    requires IsProjectName(s)
    ensures s != ""
  {
  }

  // ---------------------------------------------------------------- building and reading authority

  datatype Audit = Audit(attemptId: string, taskId: Option<string>, assignmentId: Option<string>,
                         revision: Option<string>)

  datatype Authority = Authority(delegationId: string, audit: Option<Audit>)

  function ContractRefs(): Json {
    Arr([Str("supervision_messaging_v1")])
  }

  function OrEmpty(s: Option<string>): Json {
    Str(if s.Some? then s.value else "")
  }

  /** What stands behind the marker. */
  function Grant(id: string, withRefs: bool): Json {
    Obj([Field("delegationId", Str(id))] + if withRefs then [Field("contractRefs", ContractRefs())] else [])
  }

  /** The line that names the reply tool. */
  function ReplyTool(session: string, authority: Authority): Json {
    match authority.audit
    case Some(audit) =>
      Obj([Field("tool", Str("peer_audit_reply")),
           Field("binding", Obj([Field("taskId", OrEmpty(audit.taskId)),
               Field("assignmentId", OrEmpty(audit.assignmentId)),
                                 Field("attemptId", Str(audit.attemptId)),
                                     Field("revision", OrEmpty(audit.revision))]))])
    case None =>
      Obj([Field("tool", Str("delegation_reply")),
           Field("binding", Obj([Field("delegationId", Str(authority.delegationId)), Field("target", Str(session))]))])
  }

  function SendCommand(): string {
    "After completing the above task, " + "send your response using: " + "imcodes send "
  }

  function ReplyForm(): string {
    "Task: <brief summary of " + "the request>\nResult: <your " + "response>"
  }

  /** The instruction without authority. */
  function PlainInstruction(session: string): string {
    ReplyMarker() + "\n" + (SendCommand() + Stringify(Str(session)) + " " + Stringify(Str(ReplyForm())))
  }

  /** `buildAgentDelegationReplyInstruction`. */
  function BuildReplyInstruction(session: string, authority: Option<Authority>, taskPairEngine: bool): string {
    if !IsSessionName(session) then ""
    else if authority.None? then PlainInstruction(session)
    else
      var a := authority.value;
      if !IsOpaqueId(a.delegationId) then ""
      else
        StructuredMarker() + " " + Stringify(Grant(a.delegationId, !(taskPairEngine && a.audit.None?)))
        + "\n" + Stringify(ReplyTool(session, a))
  }

  function DropReturn(line: string): string {
    if line != "" && line[|line| - 1] == '\r' then line[..|line| - 1] else line
  }

  /** `text.split(/\r?\n/)`. */
  function Lines(text: string): seq<string> {
    var parts := Split(text, '\n');
    seq(|parts|, i requires 0 <= i < |parts| => if i < |parts| - 1 then DropReturn(parts[i]) else parts[i])
  }

  predicate IsKnownKey(key: string) {
    key == "delegationId" || key == "replyCapability" || key == "contractRefs"
  }

  /** What a marker line grants; `raw` is the text behind the marker. */
  function ReadGrant(raw: string): Option<string> {
    if raw == "" then None
    else
      var parsed := Parse(raw);
      if parsed.Fail? || !parsed.value.Obj? then None
      else
        var fields := parsed.value.fields;
        var id, refs := Lookup(fields, "delegationId"), Lookup(fields, "contractRefs");
        if exists i :: 0 <= i < |fields| && !IsKnownKey(fields[i].key) then None
        else if id == [] || !id[0].Str? || !IsOpaqueId(id[0].text) then None
        else if refs != [] && Stringify(refs[0]) != Stringify(ContractRefs()) then None
        else Some(id[0].text)
  }

  /** The first line with a structured marker decides. */
  function AuthorityIn(lines: seq<string>): Option<string> {
    if lines == [] then None
    else
      var at := IndexOf(lines[0], StructuredMarker(), 0);
      if at < 0 then AuthorityIn(lines[1..]) else ReadGrant(Trim(lines[0][at + |StructuredMarker()|..]))
  }

  /** `extractAgentDelegationReplyAuthorityFromInstruction`. */
  function ExtractAuthority(text: string): Option<string> {
    AuthorityIn(Lines(text))
  }

  // ---------------------------------------------------------------- what is read is what was granted

  lemma GrantIsRead(id: string, withRefs: bool)
    requires IsOpaqueId(id)
    ensures ReadGrant(Stringify(Grant(id, withRefs))) == Some(id)
  {
    hide Stringify, Parse, IsOpaqueId, ReadGrant;
    ParseStringify(Grant(id, withRefs));
    GrantFields(id, withRefs);
    ReadGrantOf(Stringify(Grant(id, withRefs)), Grant(id, withRefs).fields, id);
  }

  lemma GrantFields(id: string, withRefs: bool)
    ensures var fields := Grant(id, withRefs).fields;
      && Lookup(fields, "delegationId") == [Str(id)]
      && (Lookup(fields, "contractRefs") == [] || Lookup(fields, "contractRefs") == [ContractRefs()])
      && forall i :: 0 <= i < |fields| ==> IsKnownKey(fields[i].key)
  {
    var fields := Grant(id, withRefs).fields;
    hide Stringify;
    if withRefs {
      assert fields == [Field("delegationId", Str(id)), Field("contractRefs", ContractRefs())];
      DistinctKeys();
      hide *;
      LookupAt(fields, "delegationId", 0);
      LookupAt(fields, "contractRefs", 1);
      KnownKeys();
    } else {
      assert fields == [Field("delegationId", Str(id))];
      DistinctKeys();
      LookupAt(fields, "delegationId", 0);
      LookupNone(fields[0], "contractRefs");
      KnownKeys();
    }
  }

  lemma DistinctKeys()
    ensures "delegationId" != "contractRefs"
  {
    assert "delegationId"[0] == 'd';
  }

  lemma KnownKeys()
    ensures IsKnownKey("delegationId") && IsKnownKey("contractRefs")
  {
  }

  lemma LookupNone(f: Field, key: string)
    requires f.key != key
    ensures Lookup([f], key) == []
  {
  }

  lemma ReadGrantOf(raw: string, fields: seq<Field>, id: string)
    requires raw != "" && Parse(raw) == Done(Obj(fields), |raw|) && IsOpaqueId(id)
    requires Lookup(fields, "delegationId") == [Str(id)]
    requires Lookup(fields, "contractRefs") == [] || Lookup(fields, "contractRefs") == [ContractRefs()]
    requires forall i :: 0 <= i < |fields| ==> IsKnownKey(fields[i].key)
    ensures ReadGrant(raw) == Some(id)
  {
    hide Parse, Stringify, Lookup, ContractRefs, IsKnownKey, IsOpaqueId;
  }

  lemma {:induction false} AuthorityBehind(a: seq<string>, b: seq<string>)
    requires forall i :: 0 <= i < |a| ==> !Contains(a[i], StructuredMarker())
    ensures AuthorityIn(a + b) == AuthorityIn(b)
  {
    if a == [] {
      assert a + b == b;
    } else {
      assert (a + b)[1..] == a[1..] + b;
      AuthorityBehind(a[1..], b);
      var at := IndexOf(a[0], StructuredMarker(), 0);
      assert !Contains(a[0], StructuredMarker());
    }
  }

  /** Every line is a piece of the text. */
  lemma {:induction false} LineIsInText(text: string, i: nat, pat: string)
    requires i < |Split(text, '\n')| && Contains(Split(text, '\n')[i], pat) && pat != ""
    ensures Contains(text, pat)
  {
    if text != "" {
      var rest := Split(text[1..], '\n');
      TailOccurrences(text, pat);
      if text[0] == '\n' {
        if i > 0 {
          LineIsInText(text[1..], i - 1, pat);
        }
      } else if i > 0 {
        LineIsInText(text[1..], i, pat);
      } else {
        var line := [text[0]] + rest[0];
        assert line[1..] == rest[0];
        TailOccurrences(line, pat);
        if Contains(rest[0], pat) {
          LineIsInText(text[1..], 0, pat);
        } else {
          FirstLineIsPrefix(text, '\n');
        }
      }
    }
  }

  lemma {:induction false} FirstLineIsPrefix(text: string, sep: char)
    ensures Split(text, sep)[0] <= text
  {
    if text != "" {
      FirstLineIsPrefix(text[1..], sep);
    }
  }

  /** The lines before the instruction hold no structured marker, so the lines of the instruction decide. */
  lemma InstructionDecides(clean: string, tail: string)
    requires !Contains(clean, StructuredMarker())
    ensures ExtractAuthority(clean + "\n\n" + tail) == AuthorityIn(Lines(tail))
  {
    hide StructuredMarker, AuthorityIn, Contains, Split, DropReturn;
    var whole := clean + "\n\n" + tail;
    WholeSplit(clean, tail);
    var a, b := Split(clean, '\n') + [""], Split(tail, '\n');
    var front := Lines(whole)[..|a|];
    assert Lines(whole) == front + Lines(tail);
    forall i | 0 <= i < |front|
      ensures !Contains(front[i], StructuredMarker())
    {
      assert front[i] == DropReturn(a[i]);
      LineIsClean(clean, i);
    }
    AuthorityBehind(front, Lines(tail));
  }

  lemma WholeSplit(clean: string, tail: string)
    ensures Split(clean + "\n\n" + tail, '\n') == Split(clean, '\n') + [""] + Split(tail, '\n')
  {
    hide *;
    SplitConcat(clean, "\n" + tail, '\n');
    SplitCons("", tail, '\n');
    BlankLine(clean, tail);
    assert Split(clean, '\n') + ([""] + Split(tail, '\n')) == Split(clean, '\n') + [""] + Split(tail, '\n');
  }

  lemma BlankLine(clean: string, tail: string)
    ensures clean + ['\n'] + ("\n" + tail) == clean + "\n\n" + tail && "" + ['\n'] + tail == "\n" + tail
  {
  }

  lemma LineIsClean(clean: string, i: nat)
    requires !Contains(clean, StructuredMarker()) && i < |Split(clean, '\n') + [""]|
    ensures !Contains(DropReturn((Split(clean, '\n') + [""])[i]), StructuredMarker())
  {
    var lines, m := Split(clean, '\n'), StructuredMarker();
    hide StructuredMarker;
    if i < |lines| && Contains(DropReturn(lines[i]), m) {
      PrefixContains(DropReturn(lines[i]), lines[i], m);
      LineIsInText(clean, i, m);
    }
  }

  lemma PrefixContains(p: string, s: string, m: string)
    requires p <= s && Contains(p, m)
    ensures Contains(s, m)
  {
    var i :| OccursAt(p, m, i);
    assert s[i..i + |m|] == p[i..i + |m|];
    assert OccursAt(s, m, i);
  }

  /** The two lines of a structured instruction. */
  lemma StructuredLines(id: string, withRefs: bool, tool: Json)
    requires tool.Obj?
    ensures var line := StructuredMarker() + " " + Stringify(Grant(id, withRefs));
      Lines(line + "\n" + Stringify(tool)) == [line, Stringify(tool)]
  {
    var m, json, reply := StructuredMarker(), Stringify(Grant(id, withRefs)), Stringify(tool);
    PrintedIsPrintable(Grant(id, withRefs));
    PrintedIsPrintable(tool);
    MarkerIsOneLine();
    hide Stringify, StructuredMarker, Grant, Lines;
    var line := m + " " + json;
    assert '\n' !in json && '\n' !in reply && json[|json| - 1] >= ' ';
    hide *;
    assert '\n' !in line && line[|line| - 1] == json[|json| - 1];
    SplitTwo(line, reply);
  }

  lemma SplitTwo(a: string, b: string)
    requires '\n' !in a && '\n' !in b && a != "" && a[|a| - 1] != '\r'
    ensures Lines(a + "\n" + b) == [a, b]
  {
    SplitCons(a, b, '\n');
    SplitCons(b, "", '\n');
    assert a + "\n" + b == a + ['\n'] + b;
  }

  lemma MarkerIsOneLine()
    ensures '\n' !in StructuredMarker()
  {
    var a, b := "imcodes-agent-delegation", "-reply-instruction-v2";
    assert '\n' !in a && '\n' !in b;
  }

  /** On a line that starts with the marker, the marker is found first. */
  lemma MarkerLineIsRead(id: string, withRefs: bool, rest: seq<string>)
    requires IsOpaqueId(id)
    ensures AuthorityIn([StructuredMarker() + " " + Stringify(Grant(id, withRefs))] + rest) == Some(id)
  {
    hide *;
    GrantIsRead(id, withRefs);
    GrantEnds(id, withRefs);
    JsonLineDecides(StructuredMarker(), Stringify(Grant(id, withRefs)), rest);
  }

  lemma JsonLineDecides(m: string, json: string, rest: seq<string>)
    requires m == StructuredMarker()
    requires json != "" && !IsJsSpace(json[0]) && !IsJsSpace(json[|json| - 1])
    ensures AuthorityIn([m + " " + json] + rest) == ReadGrant(json)
  {
    hide *;
    MarkerIsText(m);
    var raw := " " + json;
    Spaced(m, json);
    FoundFirst(m, raw);
    Padded(json);
    FirstLineDecides(m + raw, raw, rest);
  }

  lemma Spaced(m: string, json: string)
    ensures m + " " + json == m + (" " + json)
  {
  }

  lemma FirstLineDecides(line: string, raw: string, rest: seq<string>)
    requires line == StructuredMarker() + raw && IndexOf(line, StructuredMarker(), 0) == 0
    ensures AuthorityIn([line] + rest) == ReadGrant(Trim(raw))
  {
    hide StructuredMarker, ReadGrant, Trim;
    assert line[0 + |StructuredMarker()|..] == raw;
  }

  lemma FoundFirst(m: string, raw: string)
    requires m != ""
    ensures IndexOf(m + raw, m, 0) == 0
  {
    assert (m + raw)[0..0 + |m|] == m;
  }

  lemma Padded(json: string)
    requires json != "" && !IsJsSpace(json[0]) && !IsJsSpace(json[|json| - 1])
    ensures Trim(" " + json) == json
  {
    TrimPadded(" ", json, "");
    assert " " + json + "" == " " + json;
  }

  lemma GrantEnds(id: string, withRefs: bool)
    ensures var json := Stringify(Grant(id, withRefs));
      json != "" && !IsJsSpace(json[0]) && !IsJsSpace(json[|json| - 1])
  {
    hide Stringify, PrintFields, Grant, IsJsSpace;
    var fields := GrantPrint(id, withRefs);
    PrintedFieldsEnd(fields);
    Braces(PrintFields(fields));
  }

  lemma GrantPrint(id: string, withRefs: bool) returns (fields: seq<Field>)
    ensures fields != [] && Stringify(Grant(id, withRefs)) == "{" + PrintFields(fields)
  {
    fields := Grant(id, withRefs).fields;
    hide PrintFields;
  }

  lemma Braces(inner: string)
    requires inner != "" && inner[|inner| - 1] == '}'
    ensures var s := "{" + inner; s != "" && !IsJsSpace(s[0]) && !IsJsSpace(s[|s| - 1])
  {
  }

  // ---------------------------------------------------------------- what instructions say and what is read

  function TextOf(s: Option<string>): string {
    match s
    case None => ""
    case Some(text) => text
  }

  /** The JSON behind the marker: the id, with the contract references unless the task-pair engine runs and there is no
      audit. */
  ghost function IdAndRefs(a: Authority, taskPairEngine: bool): Json {
    if taskPairEngine && a.audit.None? then Obj([Field("delegationId", Str(a.delegationId))])
    else
      Obj([Field("delegationId", Str(a.delegationId)),
           Field("contractRefs", Arr([Str("supervision_messaging_v1")]))])
  }

  /** The tool to reply with: for an audit with its four fields, otherwise with the id and the session to reply to. */
  ghost function ToolAndBinding(session: string, a: Authority): Json {
    var binding := if a.audit.Some? then
                     [Field("taskId", Str(TextOf(a.audit.value.taskId))),
                      Field("assignmentId", Str(TextOf(a.audit.value.assignmentId))),
                      Field("attemptId", Str(a.audit.value.attemptId)),
                      Field("revision", Str(TextOf(a.audit.value.revision)))]
                   else [Field("delegationId", Str(a.delegationId)), Field("target", Str(session))];
    Obj([Field("tool", Str(if a.audit.Some? then "peer_audit_reply" else "delegation_reply")),
         Field("binding", Obj(binding))])
  }

  /** An instruction with authority has two lines: the marker and behind it JSON for the id and its references, and JSON
      for the tool and its binding. */
  lemma InstructionSays(session: string, a: Authority, taskPairEngine: bool)
    requires IsSessionName(session) && IsOpaqueId(a.delegationId)
    ensures var lines := Lines(BuildReplyInstruction(session, Some(a), taskPairEngine));
            |lines| == 2 && "<" + ("imcodes-agent-delegation" + "-reply-instruction-v2") + ">" + " " <= lines[0]
            && Reads(lines[0][48..], IdAndRefs(a, taskPairEngine)) && Reads(lines[1], ToolAndBinding(session, a))
  {
    EnvelopeMarkers();
    hide *;
    InstructionLines(session, a, taskPairEngine);
    PrintedReads(IdAndRefs(a, taskPairEngine));
    PrintedReads(ToolAndBinding(session, a));
    BehindMarker(StructuredMarker(), Stringify(IdAndRefs(a, taskPairEngine)));
  }

  lemma PrintedReads(v: Json)
    ensures Reads(Stringify(v), v)
  {
    ParseStringify(v);
  }

  lemma InstructionLines(session: string, a: Authority, taskPairEngine: bool)
    requires IsSessionName(session) && IsOpaqueId(a.delegationId)
    ensures Lines(BuildReplyInstruction(session, Some(a), taskPairEngine))
            == [StructuredMarker() + " " + Stringify(IdAndRefs(a, taskPairEngine)),
                Stringify(ToolAndBinding(session, a))]
  {
    var withRefs := !(taskPairEngine && a.audit.None?);
    GrantIs(a, taskPairEngine);
    ToolIs(session, a);
    hide IsSessionName, IsOpaqueId, StructuredMarker, Stringify, Lines, Grant, IdAndRefs, ToolAndBinding;
    StructuredLines(a.delegationId, withRefs, ReplyTool(session, a));
  }

  lemma GrantIs(a: Authority, taskPairEngine: bool)
    ensures Grant(a.delegationId, !(taskPairEngine && a.audit.None?)) == IdAndRefs(a, taskPairEngine)
  {
  }

  lemma ToolIs(session: string, a: Authority)
    ensures ReplyTool(session, a) == ToolAndBinding(session, a) && ReplyTool(session, a).Obj?
  {
  }

  lemma BehindMarker(m: string, json: string)
    requires |m| == 47
    ensures m + " " <= m + " " + json && (m + " " + json)[48..] == json
  {
  }

  /** The text is JSON for this value. */
  ghost predicate Reads(text: string, v: Json) {
    Parse(text).Done? && Parse(text).value == v
  }

  /** Without authority the instruction asks for a message to exactly this session. */
  lemma PlainInstructionSays(session: string, taskPairEngine: bool)
    requires IsSessionName(session)
    ensures Contains(BuildReplyInstruction(session, None, taskPairEngine),
                     "imcodes send " + Stringify(Str(session)) + " ")
  {
    var text := BuildReplyInstruction(session, None, taskPairEngine);
    var name, form := Stringify(Str(session)), Stringify(Str(ReplyForm()));
    var marker, a := ReplyMarker(), "After completing the above task, ";
    var b, c := "send your response using: ", "imcodes send ";
    assert text == marker + "\n" + ((a + b + c) + name + " " + form);
    hide *;
    InTheMiddle(marker + "\n", a + b, c, name, form);
  }

  lemma InTheMiddle(front: string, a: string, c: string, name: string, form: string)
    ensures Contains(front + ((a + c) + name + " " + form), c + name + " ")
  {
    var s, pat, at := front + ((a + c) + name + " " + form), c + name + " ", |front| + |a|;
    assert s == (front + a) + (pat + form);
    assert s[at..at + |pat|] == pat;
    assert OccursAt(s, pat, at);
  }

  /** There is no instruction exactly when the session name or the id of an authority is not acceptable. */
  lemma NoInstructionIff(session: string, authority: Option<Authority>, taskPairEngine: bool)
    ensures BuildReplyInstruction(session, authority, taskPairEngine) == "" <==>
            !IsSessionName(session) || (authority.Some? && !IsOpaqueId(authority.value.delegationId))
  {
    hide IsSessionName, IsOpaqueId, Stringify;
  }

  /** Lines are separated by newlines with or without a return before them. */
  lemma LinesLoseReturns(text: string)
    ensures LosesReturns(Split(text, '\n'), Lines(text))
  {
    var parts := Split(text, '\n');
    hide Split;
    forall i | 0 <= i < |parts| && parts[i] != "" && parts[i][|parts[i]| - 1] == '\r'
      ensures parts[i] == DropReturn(parts[i]) + "\r"
    {
    }
  }

  /** The first line with a structured marker decides alone: the text behind its first marker, trimmed, is a grant or
      nothing is read; without such a line nothing is read. */
  lemma FirstMarkerDecides(text: string, i: nat)
    requires i <= |Lines(text)| && forall j :: 0 <= j < i ==> !Contains(Lines(text)[j], StructuredMarker())
    ensures i == |Lines(text)| ==> ExtractAuthority(text) == None
    ensures i < |Lines(text)| ==>
              forall front, raw :: Lines(text)[i] == front + StructuredMarker() + raw
                                   && !Contains(front + StructuredMarker()[..46], StructuredMarker()) ==>
                ExtractAuthority(text) == ReadGrant(Trim(raw))
  {
    var lines, m := Lines(text), StructuredMarker();
    var before, after := lines[..i], lines[i..];
    assert before + after == lines;
    hide StructuredMarker, Contains, Lines, ReadGrant, Trim;
    AuthorityBehind(before, after);
    if i < |lines| {
      forall front, raw | lines[i] == front + m + raw && !Contains(front + m[..46], m)
        ensures ExtractAuthority(text) == ReadGrant(Trim(raw))
      {
        FirstOccurrence(front, m, raw);
        assert lines[i][|front| + |m|..] == raw;
      }
    }
  }

  /** A pattern that does not end earlier is found there first. */
  lemma FirstOccurrence(front: string, m: string, raw: string)
    requires |m| == 47 && !Contains(front + m[..46], m)
    ensures IndexOf(front + m + raw, m, 0) == |front|
  {
    var s, early := front + m + raw, front + m[..46];
    assert s[|front|..|front| + |m|] == m && OccursAt(s, m, |front|);
    forall j | 0 <= j < |front|
      ensures !OccursAt(s, m, j)
    {
      assert early == s[..|front| + 46];
      assert early[j..j + |m|] == s[j..j + |m|];
      assert OccursAt(early, m, j) <==> OccursAt(s, m, j);
    }
  }

  /** What grants an id: JSON for an object without any but the three known keys, whose `delegationId` is an acceptable
      id and whose `contractRefs`, if it has any, are exactly the current ones. */
  lemma ReadGrantIff(raw: string, id: string)
    ensures ReadGrant(raw) == Some(id) <==> exists fields :: Reads(raw, Obj(fields)) && Grants(fields, id)
  {
    var parsed := Parse(raw);
    assert raw == "" ==> parsed.Fail?;
    if parsed.Done? && parsed.value.Obj? {
      FieldsGrant(raw, parsed.value.fields, id);
    }
    hide Parse, Grants, IsOpaqueId, Lookup, Stringify, ContractRefs, IsKnownKey;
  }

  lemma FieldsGrant(raw: string, fields: seq<Field>, id: string)
    requires raw != "" && Parse(raw).Done? && Parse(raw).value == Obj(fields)
    ensures ReadGrant(raw) == Some(id) <==> Grants(fields, id)
  {
    LookupIff(fields, "delegationId");
    LookupIff(fields, "contractRefs");
    RefsAre();
    KnownKeysOnly(fields);
    var ids, refs := Lookup(fields, "delegationId"), Lookup(fields, "contractRefs");
    assert ids == [] || ids == [ids[0]];
    assert refs == [] || refs == [refs[0]];
    hide Parse, Lookup, LastIs, IsOpaqueId, Stringify, ContractRefs, IsKnownKey;
    var current := Arr([Str("supervision_messaging_v1")]);
    assert (forall v :: LastIs(fields, "contractRefs", v) ==> v == current) <==> refs == [] || refs[0] == current;
  }

  lemma KnownKeysOnly(fields: seq<Field>)
    ensures !(exists i :: 0 <= i < |fields| && !IsKnownKey(fields[i].key)) <==>
            forall i :: 0 <= i < |fields| ==>
              fields[i].key == "delegationId" || fields[i].key == "replyCapability" || fields[i].key == "contractRefs"
  {
  }

  ghost predicate Grants(fields: seq<Field>, id: string) {
    && (forall i :: 0 <= i < |fields| ==>
          fields[i].key == "delegationId" || fields[i].key == "replyCapability" || fields[i].key == "contractRefs")
    && LastIs(fields, "delegationId", Str(id)) && IsOpaqueId(id)
    && forall refs :: LastIs(fields, "contractRefs", refs) ==> refs == Arr([Str("supervision_messaging_v1")])
  }

  lemma RefsAre()
    ensures forall refs ::
              Stringify(refs) == Stringify(ContractRefs()) <==> refs == Arr([Str("supervision_messaging_v1")])
  {
    forall refs
      ensures Stringify(refs) == Stringify(ContractRefs()) <==> refs == ContractRefs()
    {
      ParseStringify(refs);
      ParseStringify(ContractRefs());
    }
  }

  // ---------------------------------------------------------------- the plain instruction holds no structured marker

  /** No `<` is followed by an `i`, and none stands at the end. */
  ghost predicate NoOpening(s: string) {
    forall i :: 0 <= i < |s| && s[i] == '<' ==> i + 1 < |s| && s[i + 1] != 'i'
  }

  lemma NoOpeningConcat(a: string, b: string)
    requires NoOpening(a) && NoOpening(b)
    ensures NoOpening(a + b)
  {
    var s := a + b;
    forall i | 0 <= i < |s| && s[i] == '<'
      ensures i + 1 < |s| && s[i + 1] != 'i'
    {
      if i < |a| {
        assert a[i] == '<';
      } else {
        assert b[i - |a|] == '<';
      }
    }
  }

  lemma NoOpeningNoMarker(s: string)
    requires NoOpening(s)
    ensures !Contains(s, StructuredMarker())
  {
    var m := StructuredMarker();
    hide StructuredMarker;
    forall i
      ensures !OccursAt(s, m, i)
    {
      if 0 <= i && i + |m| <= |s| {
        assert s[i..i + |m|][0] == s[i] && s[i..i + |m|][1] == s[i + 1];
      }
    }
  }

  lemma {:induction false} QuotedHasNoOpening(s: string)
    requires NoOpening(s)
    ensures NoOpening(EscapeAll(s)) && (s != "" && s[0] != 'i' ==> EscapeAll(s)[0] != 'i')
  {
    if s != "" {
      var t := s[1..];
      assert NoOpening(t) by {
        assert forall i :: 0 <= i < |t| ==> t[i] == s[i + 1];
      }
      QuotedHasNoOpening(t);
      EscapeAllStep(s);
      EscapeHasNoOpening(s[0]);
      var e, r := Escape(s[0]), EscapeAll(t);
      hide Escape, EscapeAll;
      if s[0] == '<' {
        assert t[0] == s[1];
        assert e + r == ['<'] + r;
      } else {
        NoOpeningConcat(e, r);
      }
    }
  }

  lemma EscapeHasNoOpening(c: char)
    ensures c != '<' ==> '<' !in Escape(c)
    ensures c == '<' ==> Escape(c) == "<"
    ensures c != 'i' ==> Escape(c)[0] != 'i'
  {
  }

  lemma StringHasNoOpening(s: string)
    requires NoOpening(s)
    ensures NoOpening(Stringify(Str(s)))
  {
    QuotedHasNoOpening(s);
    NoOpeningConcat("\"", EscapeAll(s));
  }

  lemma SessionIsPlain(s: string)
    requires IsSessionName(s)
    ensures NoOpening(s)
  {
    var name := s[5..];
    assert s == "deck_" + name;
    hide IsRole, IsProjectName, IsBase64Url, NoOpening;
    if "sub_" <= name && IsBase64Url(name[4..]) {
      assert name == "sub_" + name[4..];
      Base64IsPlain(name[4..]);
    } else {
      var k :| 1 <= k < |name| && name[k] == '_' && IsProjectName(name[..k]) && IsRole(name[k + 1..]);
      WorkerIsPlain(name, k);
    }
    assert '<' !in s;
    NoAngleNoOpening(s);
  }

  lemma NoAngleNoOpening(s: string)
    requires '<' !in s
    ensures NoOpening(s)
  {
  }

  lemma Base64IsPlain(s: string)
    requires IsBase64Url(s)
    ensures '<' !in s
  {
  }

  lemma WorkerIsPlain(name: string, k: nat)
    requires 1 <= k < |name| && name[k] == '_' && IsProjectName(name[..k]) && IsRole(name[k + 1..])
    ensures '<' !in name
  {
    RoleIsPlain(name[k + 1..]);
    ProjectIsPlain(name[..k]);
    hide *;
    assert name == name[..k] + [name[k]] + name[k + 1..];
  }

  lemma ProjectIsPlain(s: string)
    requires IsProjectName(s)
    ensures '<' !in s
  {
  }

  lemma RoleIsPlain(s: string)
    requires IsRole(s)
    ensures '<' !in s
  {
  }

  lemma PlainInstructionIsUnmarked(session: string)
    requires IsSessionName(session)
    ensures !Contains(PlainInstruction(session), StructuredMarker())
  {
    SessionIsPlain(session);
    StringHasNoOpening(session);
    CommandHasNoOpening();
    FormHasNoOpening();
    StringHasNoOpening(ReplyForm());
    assert NoOpening(" ");
    var reply, m := ReplyMarker(), StructuredMarker();
    var command, name, form := SendCommand(), Stringify(Str(session)), Stringify(Str(ReplyForm()));
    MarkerIsOneLine();
    assert PlainInstruction(session) == reply + "\n" + (command + name + " " + form);
    hide *;
    NoOpeningConcat(command, name);
    NoOpeningConcat(command + name, " ");
    NoOpeningConcat(command + name + " ", form);
    NoOpeningNoMarker(command + name + " " + form);
    OtherMarker();
    ContainsAcross(reply, command + name + " " + form, m);
  }

  lemma OtherMarker()
    ensures !Contains(ReplyMarker(), StructuredMarker())
  {
    var a, b := ReplyMarker(), StructuredMarker();
    hide ReplyMarker, StructuredMarker;
    forall i
      ensures !OccursAt(a, b, i)
    {
      assert i == 0 ==> a[i..i + |b|][45] == a[45];
    }
  }

  /** A pattern without line breaks stands on one side of a line break. */
  lemma ContainsAcross(a: string, b: string, m: string)
    requires '\n' !in m && m != ""
    requires !Contains(a, m) && !Contains(b, m)
    ensures !Contains(a + "\n" + b, m)
  {
    var s := a + "\n" + b;
    forall i
      ensures !OccursAt(s, m, i)
    {
      if 0 <= i && i + |m| <= |a| {
        assert a[i..i + |m|] == s[i..i + |m|];
        assert OccursAt(a, m, i) <==> OccursAt(s, m, i);
      } else if |a| < i && i + |m| <= |s| {
        assert b[i - |a| - 1..i - |a| - 1 + |m|] == s[i..i + |m|];
        assert OccursAt(b, m, i - |a| - 1) <==> OccursAt(s, m, i);
      } else if 0 <= i && i + |m| <= |s| {
        assert s[i..i + |m|][|a| - i] == '\n';
      }
    }
  }

  lemma CommandHasNoOpening()
    ensures NoOpening(SendCommand())
  {
    var a, b, c := "After completing the above task, ", "send your response using: ", "imcodes send ";
    assert NoOpening(a) && NoOpening(b) && NoOpening(c);
    hide NoOpening;
    NoOpeningConcat(a, b);
    NoOpeningConcat(a + b, c);
  }

  lemma FormHasNoOpening()
    ensures NoOpening(ReplyForm())
  {
    var a, b, c := "Task: <brief summary of ", "the request>\nResult: <your ", "response>";
    assert NoOpening(a) && NoOpening(b) && NoOpening(c);
    hide NoOpening;
    NoOpeningConcat(a, b);
    NoOpeningConcat(a + b, c);
  }

  // ---------------------------------------------------------------- main result

  /** Whatever the content says, the authority read from the defanged content and the instruction behind it
      is the one the instruction was built with: the delegation id exactly when the session name and the id
      are acceptable and there is an authority, and nothing otherwise. */
  lemma OnlyGrantedAuthorityIsRead(body: string, session: string, authority: Option<Authority>, taskPairEngine: bool)
    ensures ExtractAuthority(Defang(body, Markers()) + "\n\n"
            + BuildReplyInstruction(session, authority, taskPairEngine))
         == if IsSessionName(session) && authority.Some? && IsOpaqueId(authority.value.delegationId)
            then Some(authority.value.delegationId) else None
  {
    var clean, tail := Defang(body, Markers()), BuildReplyInstruction(session, authority, taskPairEngine);
    assert Markers()[2] == StructuredMarker();
    DefangedIsClean(body, Markers(), StructuredMarker());
    hide *;
    InstructionDecides(clean, tail);
    if IsSessionName(session) && authority.Some? && IsOpaqueId(authority.value.delegationId) {
      StructuredIsRead(session, authority.value, taskPairEngine);
    } else {
      OtherIsUnmarked(session, authority, taskPairEngine);
      UnmarkedGrantsNothing(tail);
    }
  }

  lemma StructuredIsRead(session: string, a: Authority, taskPairEngine: bool)
    requires IsSessionName(session) && IsOpaqueId(a.delegationId)
    ensures AuthorityIn(Lines(BuildReplyInstruction(session, Some(a), taskPairEngine))) == Some(a.delegationId)
  {
    hide IsSessionName, IsOpaqueId, StructuredMarker, Grant, Stringify, Lines, AuthorityIn;
    var withRefs := !(taskPairEngine && a.audit.None?);
    var tool := ReplyTool(session, a);
    StructuredLines(a.delegationId, withRefs, tool);
    MarkerLineIsRead(a.delegationId, withRefs, [Stringify(tool)]);
    var line := StructuredMarker() + " " + Stringify(Grant(a.delegationId, withRefs));
    assert [line, Stringify(tool)] == [line] + [Stringify(tool)];
  }

  lemma OtherIsUnmarked(session: string, authority: Option<Authority>, taskPairEngine: bool)
    requires !(IsSessionName(session) && authority.Some? && IsOpaqueId(authority.value.delegationId))
    ensures !Contains(BuildReplyInstruction(session, authority, taskPairEngine), StructuredMarker())
  {
    hide IsSessionName, IsOpaqueId, StructuredMarker, PlainInstruction;
    if IsSessionName(session) && authority.None? {
      PlainInstructionIsUnmarked(session);
    }
  }

  lemma UnmarkedGrantsNothing(text: string)
    requires !Contains(text, StructuredMarker())
    ensures AuthorityIn(Lines(text)) == None
  {
    hide StructuredMarker, Contains;
    var lines := Lines(text);
    forall i | 0 <= i < |lines|
      ensures !Contains(lines[i], StructuredMarker())
    {
      var part := Split(text, '\n')[i];
      if Contains(lines[i], StructuredMarker()) {
        PrefixContains(lines[i], part, StructuredMarker());
        LineIsInText(text, i, StructuredMarker());
      }
    }
    AuthorityBehind(lines, []);
    assert lines + [] == lines;
  }

  // ---------------------------------------------------------------- cutting text to a byte budget

  function ByteLength(s: string): nat {
    |Utf8.Encode(s)|
  }

  function Suffix(): string {
    "\n[truncated]"
  }

  lemma {:induction false} ByteLengthConcat(a: string, b: string)
    ensures ByteLength(a + b) == ByteLength(a) + ByteLength(b)
  {
    if a == "" {
      assert a + b == b;
    } else {
      assert (a + b)[1..] == a[1..] + b;
      ByteLengthConcat(a[1..], b);
    }
  }

  lemma LongerTakesMore(s: string, j: nat, k: nat)
    requires j <= k <= |s|
    ensures ByteLength(s[..j]) <= ByteLength(s[..k])
  {
    ByteLengthConcat(s[..j], s[j..k]);
    assert s[..j] + s[j..k] == s[..k];
  }

  /** `truncateAgentDelegationUtf8`: text within the budget is kept; otherwise the longest prefix that leaves
      room for the suffix is, and the result keeps to the budget exactly when the suffix alone does. */
  method TruncateUtf8(value: string, maxBytes: nat) returns (r: string, kept: nat)
    ensures kept <= |value|
    ensures ByteLength(value) <= maxBytes ==> r == value
    ensures ByteLength(value) > maxBytes ==> r == value[..kept] + Suffix()
    ensures ByteLength(value) > maxBytes ==>
      forall k :: 0 <= k <= |value| ==> (k <= kept
          <==> k == 0 || ByteLength(value[..k]) + ByteLength(Suffix()) <= maxBytes)
    ensures ByteLength(r) <= maxBytes <==> ByteLength(value) <= maxBytes || ByteLength(Suffix()) <= maxBytes
  {
    hide ByteLength, Suffix;
    kept := 0;
    if ByteLength(value) <= maxBytes {
      return value, |value|;
    }
    var suffixBytes := ByteLength(Suffix());
    var used, output := 0, "";
    NothingTakesNothing();
    assert value[..0] == "";
    for i := 0 to |value|
      invariant kept == i && output == value[..i] && used == ByteLength(output)
      invariant i == 0 || used + suffixBytes <= maxBytes
    {
      var bytes := ByteLength([value[i]]);
      ByteLengthConcat(output, [value[i]]);
      assert output + [value[i]] == value[..i + 1];
      if used + bytes + suffixBytes > maxBytes {
        break;
      }
      output := output + [value[i]];
      used := used + bytes;
      kept := i + 1;
    }
    assert value[..|value|] == value;
    forall k | 0 <= k <= |value|
      ensures k <= kept <==> k == 0 || ByteLength(value[..k]) + suffixBytes <= maxBytes
    {
      if k <= kept {
        LongerTakesMore(value, k, kept);
      } else {
        LongerTakesMore(value, kept + 1, k);
      }
    }
    ByteLengthConcat(output, Suffix());
    r := output + Suffix();
  }

  lemma NothingTakesNothing()
    ensures ByteLength("") == 0
  {
  }
}
