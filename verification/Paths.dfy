/** Folding of `.` and `..` in paths that chat messages mention (shared/chat-local-path.ts). */
module Paths {
  import opened Results
  import opened Text

  // ---------------------------------------------------------------- folding

  /** One turn of the folding loop. */
  function Step(parts: seq<string>, part: string, rooted: bool): seq<string> {
    if part == "" || part == "." then parts
    else if part == ".." then
      if |parts| > 0 && parts[|parts| - 1] != ".." then parts[..|parts| - 1]
      else if !rooted then parts + [part]
      else parts
    else parts + [part]
  }

  function Fold(segments: seq<string>, rooted: bool): seq<string> {
    if segments == [] then []
    else Step(Fold(segments[..|segments| - 1], rooted), segments[|segments| - 1], rooted)
  }

  /** The folding loop over the stack `parts`. */
  method FoldSegments(segments: seq<string>, rooted: bool) returns (parts: seq<string>)
    ensures parts == Fold(segments, rooted)
    ensures Normal(parts, rooted)
  {
    parts := [];
    for i := 0 to |segments|
      invariant parts == Fold(segments[..i], rooted)
    {
      var part := segments[i];
      assert segments[..i + 1][..i] == segments[..i];
      if part == "" || part == "." {
        continue;
      }
      if part == ".." {
        if |parts| > 0 && parts[|parts| - 1] != ".." {
          parts := parts[..|parts| - 1];
        } else if !rooted {
          parts := parts + [part];
        }
        continue;
      }
      parts := parts + [part];
    }
    assert segments[..|segments|] == segments;
    FoldIsNormal(segments, rooted);
  }

  predicate IsName(s: string) {
    s != "" && s != "." && s != ".."
  }

  /** No empty and no `.` segment; `..` only as a leading run, and not at all behind a root. */
  ghost predicate Normal(parts: seq<string>, rooted: bool) {
    forall i :: 0 <= i < |parts| ==>
      (IsName(parts[i]) || parts[i] == "..")
      && (parts[i] == ".." ==> !rooted && forall j :: 0 <= j < i ==> parts[j] == "..")
  }

  lemma {:induction false} FoldIsNormal(segments: seq<string>, rooted: bool)
    ensures Normal(Fold(segments, rooted), rooted)
  {
    if segments != [] {
      FoldIsNormal(segments[..|segments| - 1], rooted);
    }
  }

  /** Folding what is folded changes nothing. */
  lemma {:induction false} NormalIsKept(parts: seq<string>, rooted: bool)
    requires Normal(parts, rooted)
    ensures Fold(parts, rooted) == parts
  {
    if parts != [] {
      var n := |parts| - 1;
      assert parts == parts[..n] + [parts[n]];
      NormalIsKept(parts[..n], rooted);
    }
  }

  lemma FoldIsIdempotent(segments: seq<string>, rooted: bool)
    ensures Fold(Fold(segments, rooted), rooted) == Fold(segments, rooted)
  {
    FoldIsNormal(segments, rooted);
    NormalIsKept(Fold(segments, rooted), rooted);
  }

  // ---------------------------------------------------------------- what segments mean

  /** Following one segment from a directory, given by the names on the way from the root; the root is its
      own parent. */
  function Enter(at: seq<string>, segment: string): seq<string> {
    if segment == "" || segment == "." then at
    else if segment == ".." then if at == [] then [] else at[..|at| - 1]
    else at + [segment]
  }

  function Walk(start: seq<string>, segments: seq<string>): seq<string> {
    if segments == [] then start
    else Enter(Walk(start, segments[..|segments| - 1]), segments[|segments| - 1])
  }

  lemma WalkStep(start: seq<string>, segments: seq<string>, segment: string)
    ensures Walk(start, segments + [segment]) == Enter(Walk(start, segments), segment)
  {
    assert (segments + [segment])[..|segments|] == segments;
  }

  /** From every directory a relative path leads where its folded form leads; a rooted one does from the root. */
  lemma {:induction false} FoldKeepsMeaning(start: seq<string>, segments: seq<string>, rooted: bool)
    requires rooted ==> start == []
    ensures Walk(start, Fold(segments, rooted)) == Walk(start, segments)
  {
    if segments != [] {
      var front, last := segments[..|segments| - 1], segments[|segments| - 1];
      FoldKeepsMeaning(start, front, rooted);
      FoldIsNormal(front, rooted);
      var parts := Fold(front, rooted);
      if last == ".." && |parts| > 0 && parts[|parts| - 1] != ".." {
        assert parts == parts[..|parts| - 1] + [parts[|parts| - 1]];
        WalkStep(start, parts[..|parts| - 1], parts[|parts| - 1]);
      } else {
        WalkStep(start, parts, last);
      }
    }
  }

  // ---------------------------------------------------------------- the folded form is canonical

  /** `n` steps up. */
  function Ups(n: nat): seq<string> {
    seq(n, i => "..")
  }

  ghost predicate AllNames(names: seq<string>) {
    forall i :: 0 <= i < |names| ==> IsName(names[i])
  }

  /** A normal relative path is some steps up and then names. */
  lemma {:induction false} NormalShape(parts: seq<string>) returns (k: nat)
    requires Normal(parts, false)
    ensures k <= |parts| && parts == Ups(k) + parts[k..] && AllNames(parts[k..])
  {
    if parts == [] {
      k := 0;
    } else if parts[|parts| - 1] == ".." {
      k := |parts|;
    } else {
      var front := parts[..|parts| - 1];
      k := NormalShape(front);
      assert parts[k..] == front[k..] + [parts[|parts| - 1]];
      assert parts == front + [parts[|parts| - 1]];
    }
  }

  lemma {:induction false} WalkNormal(start: seq<string>, k: nat, names: seq<string>)
    requires k <= |start| && AllNames(names)
    ensures Walk(start, Ups(k) + names) == start[..|start| - k] + names
    decreases k + |names|
  {
    if names != [] {
      var n := |names| - 1;
      var front, name := names[..n], names[n];
      assert AllNames(front) && IsName(name);
      hide AllNames, Ups, Walk;
      WalkNormal(start, k, front);
      assert Ups(k) + names == (Ups(k) + front) + [name];
      WalkStep(start, Ups(k) + front, name);
      assert (start[..|start| - k] + front) + [name] == start[..|start| - k] + names;
    } else {
      WalkUps(start, k);
      assert Ups(k) + names == Ups(k) && start[..|start| - k] + names == start[..|start| - k];
    }
  }

  lemma {:induction false} WalkUps(start: seq<string>, k: nat)
    requires k <= |start|
    ensures Walk(start, Ups(k)) == start[..|start| - k]
  {
    if k > 0 {
      WalkUps(start, k - 1);
      assert Ups(k) == Ups(k - 1) + [".."];
      WalkStep(start, Ups(k - 1), "..");
      hide Walk, Ups;
      assert start[..|start| - (k - 1)][..|start| - k] == start[..|start| - k];
    } else {
      assert Ups(0) == [];
    }
  }

  /** Somewhere to start from where two different normal paths part. */
  lemma NormalFormsDiffer(a: seq<string>, b: seq<string>, k: nat, l: nat) returns (start: seq<string>)
    requires k <= l && AllNames(a) && AllNames(b) && Ups(k) + a != Ups(l) + b
    ensures Walk(start, Ups(k) + a) != Walk(start, Ups(l) + b)
  {
    var w := if b == [] then "" else b[0] + "x";
    start := seq(l, i => w);
    WalkNormal(start, k, a);
    WalkNormal(start, l, b);
    var x, y := start[..l - k] + a, start[..0] + b;
    if k < l {
      assert x[0] == w;
      assert b != [] ==> y[0] == b[0] && |b[0]| < |w|;
    } else {
      assert x == a && y == b;
    }
  }

  /** Two relative paths fold to the same segments exactly when they lead to the same place from everywhere. */
  lemma FoldIsCanonical(a: seq<string>, b: seq<string>)
    ensures Fold(a, false) == Fold(b, false) <==> forall start :: Walk(start, a) == Walk(start, b)
  {
    forall start
      ensures Walk(start, Fold(a, false)) == Walk(start, a) && Walk(start, Fold(b, false)) == Walk(start, b)
    {
      FoldKeepsMeaning(start, a, false);
      FoldKeepsMeaning(start, b, false);
    }
    FoldIsNormal(a, false);
    FoldIsNormal(b, false);
    var f, g := Fold(a, false), Fold(b, false);
    var k := NormalShape(f);
    var l := NormalShape(g);
    hide *;
    if f != g {
      if k <= l {
        var start := NormalFormsDiffer(f[k..], g[l..], k, l);
        assert Walk(start, a) != Walk(start, b);
      } else {
        var start := NormalFormsDiffer(g[l..], f[k..], l, k);
        assert Walk(start, a) != Walk(start, b);
      }
    }
  }

  // ---------------------------------------------------------------- the home directory is not a root

  /** Names minus steps up. */
  function Balance(segments: seq<string>): int {
    if segments == [] then 0
    else
      var last := segments[|segments| - 1];
      Balance(segments[..|segments| - 1]) + (if last == ".." then -1 else if IsName(last) then 1 else 0)
  }

  /** Somewhere on the way there have been more steps up than names. */
  predicate Climbs(segments: seq<string>) {
    segments != [] && (Climbs(segments[..|segments| - 1]) || Balance(segments) < 0)
  }

  /** Behind `~/` the code drops steps above the home directory as if it were a root. */
  lemma {:induction false} WalkFromHome(home: seq<string>, segments: seq<string>) returns (e: nat)
    ensures e <= |home| && Walk(home, segments) == home[..|home| - e] + Fold(segments, true)
    ensures e > 0 <==> home != [] && Climbs(segments)
    ensures !Climbs(segments) ==> |Fold(segments, true)| == Balance(segments)
  {
    if segments == [] {
      e := 0;
    } else {
      var front, last := segments[..|segments| - 1], segments[|segments| - 1];
      e := WalkFromHome(home, front);
      FoldIsNormal(front, true);
      var parts, rest := Fold(front, true), home[..|home| - e];
      NoUps(parts);
      hide Fold, Walk, Climbs, Balance, Normal;
      EnterBehind(rest, parts, last);
      if last == ".." && parts == [] && e < |home| {
        e := e + 1;
        assert rest[..|rest| - 1] == home[..|home| - e];
      }
      FromHomeStep(home, segments);
    }
  }

  lemma NoUps(parts: seq<string>)
    requires Normal(parts, true)
    ensures parts != [] ==> parts[|parts| - 1] != ".."
  {
  }

  lemma EnterBehind(rest: seq<string>, parts: seq<string>, last: string)
    requires parts != [] ==> parts[|parts| - 1] != ".."
    ensures Enter(rest + parts, last) ==
      (if last == ".." && parts == [] && rest != [] then rest[..|rest| - 1] else rest) + Step(parts, last, true)
  {
    if last == ".." && parts != [] {
      assert (rest + parts)[..|rest + parts| - 1] == rest + parts[..|parts| - 1];
    }
  }

  lemma FromHomeStep(home: seq<string>, segments: seq<string>)
    requires segments != []
    ensures var front, last := segments[..|segments| - 1], segments[|segments| - 1];
      && Walk(home, segments) == Enter(Walk(home, front), last)
      && Fold(segments, true) == Step(Fold(front, true), last, true)
      && Climbs(segments) == (Climbs(front) || Balance(segments) < 0)
      && Balance(segments) == Balance(front) + (if last == ".." then -1 else if IsName(last) then 1 else 0)
  {
  }

  /** A path behind `~/` keeps its meaning exactly when it stays below the home directory, or that is the root. */
  lemma HomeKeepsMeaningIff(home: seq<string>, segments: seq<string>)
    ensures Walk(home, Fold(segments, true)) == Walk(home, segments) <==> home == [] || !Climbs(segments)
  {
    var e := WalkFromHome(home, segments);
    FoldIsNormal(segments, true);
    var names := Fold(segments, true);
    WalkNormal(home, 0, names);
    assert Ups(0) + names == names;
    assert |home[..|home| - e] + names| == |home| - e + |names|;
  }

  // ---------------------------------------------------------------- text

  predicate IsSeparator(c: char) {
    c == '/' || c == '\\'
  }

  /** `text.split(/[/\\]+/)`. */
  function Segments(s: string): (r: seq<string>)
    ensures |r| > 0
  {
    if s == "" then [""]
    else if IsSeparator(s[0]) then
      if |s| > 1 && IsSeparator(s[1]) then Segments(s[1..]) else [""] + Segments(s[1..])
    else
      var rest := Segments(s[1..]);
      [[s[0]] + rest[0]] + rest[1..]
  }

  /** A segment that names a hidden file or directory. */
  predicate IsHidden(part: string) {
    StartsWith(part, ".") && part != "." && part != ".."
  }

  predicate AnyHidden(parts: seq<string>) {
    exists i :: 0 <= i < |parts| && IsHidden(parts[i])
  }

  predicate IsLetter(c: char) {
    'A' <= c <= 'Z' || 'a' <= c <= 'z'
  }

  /** `/^[A-Za-z]:[/\\]/`. */
  predicate IsDrive(s: string) {
    |s| >= 3 && IsLetter(s[0]) && s[1] == ':' && IsSeparator(s[2])
  }

  datatype Form = Form(prefix: string, body: string, rooted: bool, separator: char)

  /** How the code reads the beginning of a path. */
  function Read(s: string): (r: Form) {
    var separator := if IsDrive(s) || '\\' in s then '\\' else '/';
    if IsDrive(s) then Form(s[..2] + [separator], s[2..], true, separator)
    else if StartsWith(s, "/") then Form([separator], s[1..], true, separator)
    else if StartsWith(s, "~/") then Form("~" + [separator], s[2..], true, separator)
    else Form("", s, false, separator)
  }

  /** What `canonicalizeChatFilePath` makes of a normalised reference. */
  function Canonicalize(s: string): string {
    if !AnyHidden(Segments(s)) then s
    else
      var f := Read(s);
      var joined := Join(Fold(Segments(f.body), f.rooted), [f.separator]);
      if f.prefix != "" then f.prefix + joined else if joined != "" then joined else s
  }

  /** `canonicalizeChatFilePath`; `normalize` stands for `normalizeChatFileReference`. */
  function CanonicalizeChatFilePath(input: string, normalize: string -> Option<string>): Option<string> {
    var normalized := normalize(input);
    if normalized.None? || normalized.value == "" then None else Some(Canonicalize(normalized.value))
  }

  // ---------------------------------------------------------------- doing it twice

  ghost predicate Plain(part: string) {
    forall i :: 0 <= i < |part| ==> !IsSeparator(part[i])
  }

  ghost predicate AllPlain(parts: seq<string>) {
    forall i :: 0 <= i < |parts| ==> Plain(parts[i])
  }

  lemma {:induction false} SegmentsArePlain(s: string)
    ensures AllPlain(Segments(s))
  {
    if s != "" {
      SegmentsArePlain(s[1..]);
    }
  }

  lemma {:induction false} FoldPicks(segments: seq<string>, rooted: bool)
    requires AllPlain(segments)
    ensures AllPlain(Fold(segments, rooted))
  {
    if segments != [] {
      FoldPicks(segments[..|segments| - 1], rooted);
    }
  }

  /** A segment, a separator and more text are split there; the text may not start with a separator itself. */
  lemma {:induction false} SegmentsCons(part: string, sep: char, rest: string)
    requires Plain(part) && IsSeparator(sep) && (rest == "" || !IsSeparator(rest[0]))
    ensures Segments(part + [sep] + rest) == [part] + Segments(rest)
    ensures Segments(part) == [part]
  {
    var s := part + [sep] + rest;
    if part == "" {
      assert s[1..] == rest;
    } else {
      SegmentsCons(part[1..], sep, rest);
      assert s[1..] == part[1..] + [sep] + rest;
      assert [part[0]] + part[1..] == part;
    }
  }

  lemma {:induction false} SegmentsOfJoin(parts: seq<string>, sep: char)
    requires AllPlain(parts) && IsSeparator(sep) && parts != [] && forall i :: 0 <= i < |parts| ==> parts[i] != ""
    ensures Segments(Join(parts, [sep])) == parts
    ensures Join(parts, [sep]) != "" && !IsSeparator(Join(parts, [sep])[0])
  {
    SegmentsCons(parts[0], sep, "");
    if |parts| > 1 {
      var tail := parts[1..];
      assert AllPlain(tail) by {
        assert forall i :: 0 <= i < |tail| ==> tail[i] == parts[i + 1];
      }
      SegmentsOfJoin(tail, sep);
      SegmentsCons(parts[0], sep, Join(tail, [sep]));
    }
  }

  /** What a path folds to. */
  function Parts(s: string): seq<string> {
    Fold(Segments(Read(s).body), Read(s).rooted)
  }

  ghost predicate GoodParts(parts: seq<string>, rooted: bool) {
    AllPlain(parts) && Normal(parts, rooted) && forall i :: 0 <= i < |parts| ==> parts[i] != ""
  }

  lemma PartsAreGood(s: string)
    ensures GoodParts(Parts(s), Read(s).rooted)
  {
    SegmentsArePlain(Read(s).body);
    FoldPicks(Segments(Read(s).body), Read(s).rooted);
    FoldIsNormal(Segments(Read(s).body), Read(s).rooted);
  }

  /** Where the result of one pass reads differently in the next: a leading slash written as a backslash, and
      a segment `X:` that has come to the front of a path with slashes. */
  ghost predicate Misread(s: string) {
    AnyHidden(Segments(s)) && AnyHidden(Parts(s))
    && ((StartsWith(s, "/") && '\\' in s)
        || (!Read(s).rooted && Read(s).separator == '/' && |Parts(s)| > 1 && IsDriveName(Parts(s)[0])))
  }

  predicate IsDriveName(part: string) {
    |part| == 2 && IsLetter(part[0]) && part[1] == ':'
  }

  lemma SegmentsBehind(head: string, sep: char, parts: seq<string>)
    requires Plain(head) && IsSeparator(sep) && AllPlain(parts) && forall i :: 0 <= i < |parts| ==> parts[i] != ""
    ensures Segments(head + [sep] + Join(parts, [sep])) == [head] + if parts == [] then [""] else parts
  {
    if parts != [] {
      SegmentsOfJoin(parts, sep);
    }
    SegmentsCons(head, sep, Join(parts, [sep]));
  }

  /** Leading segments that are not hidden do not matter to the guard. */
  lemma HiddenBehind(head: string, parts: seq<string>)
    requires !IsHidden(head)
    ensures AnyHidden([head] + parts) <==> AnyHidden(parts)
  {
    var all := [head] + parts;
    if AnyHidden(parts) {
      var i :| 0 <= i < |parts| && IsHidden(parts[i]);
      assert all[i + 1] == parts[i];
    }
    if AnyHidden(all) {
      var i :| 0 <= i < |all| && IsHidden(all[i]);
      assert all[i] == parts[i - 1];
    }
  }

  /** Folding skips an empty first segment. */
  lemma {:induction false} FoldBehindNothing(segments: seq<string>, rooted: bool)
    ensures Fold([""] + segments, rooted) == Fold(segments, rooted)
  {
    var all := [""] + segments;
    if segments == [] {
      assert all[..0] == [];
    } else {
      var n := |segments| - 1;
      assert all[..|all| - 1] == [""] + segments[..n];
      FoldBehindNothing(segments[..n], rooted);
    }
  }

  lemma {:induction false} JoinIsPlain(parts: seq<string>, sep: char, c: char)
    requires AllPlain(parts) && IsSeparator(c) && c != sep
    ensures c !in Join(parts, [sep])
  {
    if parts != [] {
      assert Plain(parts[0]);
      if |parts| > 1 {
        var tail := parts[1..];
        assert AllPlain(tail) by {
          assert forall i :: 0 <= i < |tail| ==> tail[i] == parts[i + 1];
        }
        JoinIsPlain(tail, sep, c);
        JoinStep(parts, [sep]);
      }
    }
  }

  /** One pass over a path with known reading. */
  lemma Pass(s: string, f: Form, parts: seq<string>)
    requires AnyHidden(Segments(s)) && Read(s) == f && Fold(Segments(f.body), f.rooted) == parts
    ensures f.prefix != "" ==> Canonicalize(s) == f.prefix + Join(parts, [f.separator])
    ensures f.prefix == "" && Join(parts, [f.separator]) != "" ==> Canonicalize(s) == Join(parts, [f.separator])
    ensures f.prefix == "" && Join(parts, [f.separator]) == "" ==> Canonicalize(s) == s
  {
    hide AnyHidden, Segments, Fold, Read;
  }

  lemma ReadSlash(s: string, joined: string)
    requires s == "" + ['/'] + joined && '\\' !in joined
    ensures Read(s) == Form("" + ['/'], joined, true, '/')
  {
  }

  lemma ReadBackslash(s: string, joined: string)
    requires s == "" + ['\\'] + joined
    ensures Read(s) == Form("", s, false, '\\')
  {
  }

  lemma ReadDrive(s: string, drive: string, joined: string)
    requires s == drive + ['\\'] + joined && IsDriveName(drive)
    ensures Read(s) == Form(drive + ['\\'], "" + ['\\'] + joined, true, '\\')
  {
    assert s[..2] == drive && s[2..] == "" + ['\\'] + joined;
  }

  lemma ReadHome(s: string, joined: string)
    requires s == "~" + ['/'] + joined && '\\' !in joined
    ensures Read(s) == Form("~" + ['/'], joined, true, '/')
  {
    assert s[2..] == joined && s[1] == '/';
  }

  lemma ReadWindowsHome(s: string, joined: string)
    requires s == "~" + ['\\'] + joined
    ensures Read(s) == Form("", s, false, '\\')
  {
    assert s[1] == '\\' && s[0] == '~';
  }

  // The second pass, by the kind of prefix the first one wrote.

  lemma AgainSlash(parts: seq<string>)
    requires GoodParts(parts, true) && AnyHidden(parts)
    ensures var r := "" + ['/'] + Join(parts, ['/']); Canonicalize(r) == r
  {
    var joined := Join(parts, ['/']);
    var r := "" + ['/'] + joined;
    assert !IsHidden("") && Plain("") && parts != [];
    hide *;
    SegmentsBehind("", '/', parts);
    HiddenBehind("", parts);
    SegmentsOfJoin(parts, '/');
    NormalIsKept(parts, true);
    JoinIsPlain(parts, '/', '\\');
    ReadSlash(r, joined);
    Pass(r, Form("" + ['/'], joined, true, '/'), parts);
    assert |"" + ['/']| == 1;
  }

  lemma AgainBackslash(parts: seq<string>)
    requires GoodParts(parts, true) && AnyHidden(parts)
    ensures var joined := Join(parts, ['\\']); Canonicalize("" + ['\\'] + joined) == joined
  {
    var joined := Join(parts, ['\\']);
    var r := "" + ['\\'] + joined;
    assert !IsHidden("") && Plain("") && parts != [] && Normal(parts, false);
    hide *;
    SegmentsBehind("", '\\', parts);
    HiddenBehind("", parts);
    SegmentsOfJoin(parts, '\\');
    NormalIsKept(parts, false);
    FoldBehindNothing(parts, false);
    ReadBackslash(r, joined);
    Pass(r, Form("", r, false, '\\'), parts);
  }

  lemma AgainDrive(drive: string, parts: seq<string>)
    requires GoodParts(parts, true) && AnyHidden(parts) && IsDriveName(drive)
    ensures var r := drive + ['\\'] + Join(parts, ['\\']); Canonicalize(r) == r
  {
    var joined := Join(parts, ['\\']);
    var r := drive + ['\\'] + joined;
    assert !IsHidden(drive) && Plain(drive) && Plain("") && parts != [] && |drive + ['\\']| == 3;
    hide *;
    SegmentsBehind(drive, '\\', parts);
    HiddenBehind(drive, parts);
    SegmentsBehind("", '\\', parts);
    NormalIsKept(parts, true);
    FoldBehindNothing(parts, true);
    ReadDrive(r, drive, joined);
    Pass(r, Form(drive + ['\\'], "" + ['\\'] + joined, true, '\\'), parts);
  }

  lemma AgainHome(parts: seq<string>)
    requires GoodParts(parts, true) && AnyHidden(parts)
    ensures var r := "~" + ['/'] + Join(parts, ['/']); Canonicalize(r) == r
  {
    var joined := Join(parts, ['/']);
    var r := "~" + ['/'] + joined;
    assert !IsHidden("~") && Plain("~") && parts != [] && |"~" + ['/']| == 2;
    hide *;
    SegmentsBehind("~", '/', parts);
    HiddenBehind("~", parts);
    SegmentsOfJoin(parts, '/');
    NormalIsKept(parts, true);
    JoinIsPlain(parts, '/', '\\');
    ReadHome(r, joined);
    Pass(r, Form("~" + ['/'], joined, true, '/'), parts);
  }

  lemma AgainWindowsHome(parts: seq<string>)
    requires GoodParts(parts, true) && AnyHidden(parts)
    ensures var r := "~" + ['\\'] + Join(parts, ['\\']); Canonicalize(r) == r
  {
    var joined, all := Join(parts, ['\\']), ["~"] + parts;
    var r := "~" + ['\\'] + joined;
    assert !IsHidden("~") && Plain("~") && parts != [] && r != "";
    assert Normal(all, false);
    assert all[1..] == parts && all[0] == "~";
    hide *;
    SegmentsBehind("~", '\\', parts);
    HiddenBehind("~", parts);
    NormalIsKept(all, false);
    JoinStep(all, ['\\']);
    ReadWindowsHome(r, joined);
    Pass(r, Form("", r, false, '\\'), all);
  }

  /** A relative path with slashes whose first segment looks like a drive: the second pass takes it for one. */
  lemma AgainRelativeDrive(parts: seq<string>)
    requires GoodParts(parts, false) && AnyHidden(parts) && |parts| > 1 && IsDriveName(parts[0])
    ensures Canonicalize(Join(parts, ['\\'])) == Join(parts, ['\\'])
    ensures Canonicalize(Join(parts, ['/'])) == parts[0] + ['\\'] + Join(parts[1..], ['\\'])
  {
    var drive, tail := parts[0], parts[1..];
    TailIsGood(parts);
    assert [drive] + tail == parts && !IsHidden(drive);
    hide *;
    HiddenBehind(drive, tail);
    JoinStep(parts, ['\\']);
    JoinStep(parts, ['/']);
    AgainDrive(drive, tail);
    DriveWithSlash(drive, tail);
  }

  lemma TailIsGood(parts: seq<string>)
    requires GoodParts(parts, false) && parts != [] && parts[0] != ".."
    ensures GoodParts(parts[1..], true)
  {
    var tail := parts[1..];
    assert forall i :: 0 <= i < |tail| ==> tail[i] == parts[i + 1];
  }

  lemma DriveWithSlash(drive: string, parts: seq<string>)
    requires GoodParts(parts, true) && AnyHidden(parts) && IsDriveName(drive)
    ensures Canonicalize(drive + ['/'] + Join(parts, ['/'])) == drive + ['\\'] + Join(parts, ['\\'])
  {
    var joined := Join(parts, ['/']);
    var r := drive + ['/'] + joined;
    assert !IsHidden(drive) && Plain(drive) && Plain("") && parts != [] && |drive + ['\\']| == 3;
    ReadSlashDrive(r, drive, joined);
    hide *;
    SegmentsBehind(drive, '/', parts);
    HiddenBehind(drive, parts);
    SegmentsBehind("", '/', parts);
    NormalIsKept(parts, true);
    FoldBehindNothing(parts, true);
    Pass(r, Form(drive + ['\\'], "" + ['/'] + joined, true, '\\'), parts);
  }

  lemma ReadSlashDrive(s: string, drive: string, joined: string)
    requires s == drive + ['/'] + joined && IsDriveName(drive)
    ensures Read(s) == Form(drive + ['\\'], "" + ['/'] + joined, true, '\\')
  {
    assert s[..2] == drive && s[2..] == "" + ['/'] + joined;
  }

  lemma AgainRelative(parts: seq<string>, sep: char)
    requires GoodParts(parts, false) && AnyHidden(parts) && IsSeparator(sep)
    requires !(|parts| > 1 && IsDriveName(parts[0]))
    ensures Canonicalize(Join(parts, [sep])) == Join(parts, [sep])
  {
    var r, head, tail := Join(parts, [sep]), parts[0], parts[1..];
    var rest := if |parts| == 1 then "" else [sep] + Join(tail, [sep]);
    assert r == head + rest;
    if |parts| > 1 && head == "~" && sep == '/' {
      assert [head] + tail == parts && !IsHidden(head);
      TailIsGood(parts);
      hide *;
      HiddenBehind(head, tail);
      AgainHome(tail);
      assert "~" + ['/'] + Join(tail, ['/']) == "~" + (['/'] + Join(tail, ['/']));
    } else {
      assert Plain(head) && head != "";
      hide *;
      SegmentsOfJoin(parts, sep);
      NormalIsKept(parts, false);
      var other := if '\\' in r then '\\' else '/';
      ReadRelative(r, head, rest, sep);
      SeparatorStays(parts, sep);
      Pass(r, Form("", r, false, other), parts);
    }
  }

  lemma ReadRelative(s: string, head: string, rest: string, sep: char)
    requires s == head + rest && Plain(head) && head != "" && IsSeparator(sep)
    requires rest == "" || (rest[0] == sep && !IsDriveName(head) && !(head == "~" && sep == '/'))
    ensures Read(s) == Form("", s, false, if '\\' in s then '\\' else '/')
  {
    assert s[0] == head[0];
    if |head| == 1 {
      assert head == [head[0]];
      assert rest != "" ==> s[1] == sep;
    } else {
      assert s[1] == head[1] && !IsSeparator(head[1]);
      if |head| == 2 {
        assert rest != "" ==> s[2] == sep;
      } else {
        assert s[2] == head[2];
      }
    }
  }

  lemma SeparatorStays(parts: seq<string>, sep: char)
    requires GoodParts(parts, false) && parts != [] && IsSeparator(sep)
    ensures var r := Join(parts, [sep]); Join(parts, [if '\\' in r then '\\' else '/']) == r
  {
    if |parts| == 1 {
    } else if sep == '/' {
      JoinIsPlain(parts, '/', '\\');
    } else {
      JoinStep(parts, [sep]);
    }
  }

  /** The prefixes the code writes. */
  lemma ReadShape(s: string) returns (head: string)
    ensures var f := Read(s);
      && IsSeparator(f.separator) && f.rooted == (f.prefix != "")
      && (f.rooted ==> f.prefix == head + [f.separator] && Plain(head) && !IsHidden(head))
      && (f.rooted ==> (head == "" && StartsWith(s, "/")) || head == "~" || (IsDriveName(head) && f.separator == '\\'))
      && (f.rooted && head != "" ==> !StartsWith(s, "/"))
      && (StartsWith(s, "/") ==> f.rooted && (f.separator == '\\' <==> '\\' in s))
  {
    hide IsHidden, Plain;
    if IsDrive(s) {
      head := s[..2];
      DriveHead(s);
    } else if StartsWith(s, "/") {
      head := "";
      EmptyHead();
    } else if StartsWith(s, "~/") {
      head := "~";
      EmptyHead();
    } else {
      head := "";
    }
  }

  lemma DriveHead(s: string)
    requires IsDrive(s)
    ensures !StartsWith(s, "/") && Plain(s[..2]) && !IsHidden(s[..2]) && IsDriveName(s[..2]) && s[..2] != ""
  {
    assert s[0] != '/' && s[0] != '.' && s[..2][0] == s[0];
  }

  lemma EmptyHead()
    ensures Plain("") && !IsHidden("") && Plain("~") && !IsHidden("~")
  {
  }

  lemma NoHiddenNoChange(s: string)
    requires !AnyHidden(Segments(s))
    ensures Canonicalize(s) == s
  {
  }

  lemma CanonicalizeStep(s: string)
    requires AnyHidden(Segments(s))
    ensures var f, joined := Read(s), Join(Parts(s), [Read(s).separator]);
      Canonicalize(s) == if f.prefix != "" then f.prefix + joined else if joined != "" then joined else s
  {
    hide AnyHidden, Segments, Fold, Read, Join;
  }

  // What the result means.

  /** A name that starts with a dot. */
  ghost predicate IsDotName(part: string) {
    |part| > 1 && part[0] == '.' && part != ".."
  }

  /** A letter, a colon and a separator. */
  ghost predicate StartsWithDrive(s: string) {
    |s| >= 3 && ('A' <= s[0] <= 'Z' || 'a' <= s[0] <= 'z') && s[1] == ':' && (s[2] == '/' || s[2] == '\\')
  }

  /** The path has a drive, a root or the home directory in front. */
  ghost predicate HasFront(s: string) {
    StartsWithDrive(s) || "/" <= s || "~/" <= s
  }

  /** Two texts name the same place: behind the same front, or, without one, from everywhere. */
  ghost predicate SamePlace(s: string, r: string) {
    if HasFront(s) then
      Segments(r)[0] == Segments(s)[0] && Walk([], Segments(r)[1..]) == Walk([], Segments(s)[1..])
    else forall start :: Walk(start, Segments(r)) == Walk(start, Segments(s))
  }

  /** Nothing is left to fold, or nothing is left at all. */
  ghost predicate IsFolded(s: string, r: string) {
    if HasFront(s) then Segments(r)[1..] == [""] || Normal(Segments(r)[1..], true)
    else Normal(Segments(r), false) || (Parts(s) == [] && r == s)
  }

  /** The separator of the result: a path with a drive or a backslash keeps backslashes. */
  ghost function SeparatorOf(s: string): char {
    if StartsWithDrive(s) || '\\' in s then '\\' else '/'
  }

  lemma DriveIff(s: string)
    ensures IsDrive(s) <==> StartsWithDrive(s)
  {
  }

  /** What canonicalising promises of a path: it names the same place. Without a dot name it is kept; otherwise it is
      folded and, where it has changed, written with one kind of separator. */
  lemma CanonicalMeans(s: string)
    ensures SamePlace(s, Canonicalize(s))
    ensures (forall i :: 0 <= i < |Segments(s)| ==> !IsDotName(Segments(s)[i])) ==> Canonicalize(s) == s
    ensures (exists i :: 0 <= i < |Segments(s)| && IsDotName(Segments(s)[i])) ==> IsFolded(s, Canonicalize(s))
    ensures Canonicalize(s) != s ==>
              forall i :: 0 <= i < |Canonicalize(s)| && IsSeparator(Canonicalize(s)[i]) ==>
                Canonicalize(s)[i] == SeparatorOf(s)
  {
    assert AnyHidden(Segments(s)) <==> exists i :: 0 <= i < |Segments(s)| && IsDotName(Segments(s)[i]);
    SameAsItself(s);
    hide *;
    if AnyHidden(Segments(s)) {
      CanonicalizeStep(s);
      PartsAreGood(s);
      if HasFront(s) {
        FrontMeans(s);
      } else {
        RelativeMeans(s);
      }
    } else {
      NoHiddenNoChange(s);
    }
  }

  lemma SameAsItself(s: string)
    ensures SamePlace(s, s)
  {
    hide Segments, Walk;
  }

  lemma RelativeMeans(s: string)
    requires !HasFront(s) && AnyHidden(Segments(s)) && GoodParts(Parts(s), false)
    ensures SamePlace(s, Canonicalize(s)) && IsFolded(s, Canonicalize(s))
    ensures var r := Canonicalize(s);
            r != s ==> forall i :: 0 <= i < |r| && IsSeparator(r[i]) ==> r[i] == SeparatorOf(s)
  {
    var parts, sep := Parts(s), SeparatorOf(s);
    DriveIff(s);
    assert Read(s) == Form("", s, false, sep) && IsSeparator(sep);
    CanonicalizeStep(s);
    var joined := Join(parts, [sep]);
    assert parts == Fold(Segments(s), false) && joined == Join(parts, [Read(s).separator]);
    NothingJoined(sep);
    hide Segments, Walk, Fold, Join, AnyHidden, Canonicalize, Read, IsDrive, Parts;
    forall start
      ensures Walk(start, parts) == Walk(start, Segments(s))
    {
      FoldKeepsMeaning(start, Segments(s), false);
    }
    if parts != [] {
      SegmentsOfJoin(parts, sep);
      OneSeparator("", parts, sep);
    }
  }

  /** Joined parts hold no other separator. */
  lemma OneSeparator(head: string, parts: seq<string>, sep: char)
    requires AllPlain(parts) && IsSeparator(sep) && Plain(head)
    ensures var r := Join(parts, [sep]); forall i :: 0 <= i < |r| && IsSeparator(r[i]) ==> r[i] == sep
    ensures var r := head + [sep] + Join(parts, [sep]); forall i :: 0 <= i < |r| && IsSeparator(r[i]) ==> r[i] == sep
  {
    var other := if sep == '/' then '\\' else '/';
    JoinIsPlain(parts, sep, other);
    var joined := Join(parts, [sep]);
    forall i | 0 <= i < |joined| && IsSeparator(joined[i])
      ensures joined[i] == sep
    {
      assert joined[i] in joined;
    }
    hide Join;
  }

  lemma FrontMeans(s: string)
    requires HasFront(s) && AnyHidden(Segments(s)) && GoodParts(Parts(s), true)
    ensures SamePlace(s, Canonicalize(s)) && IsFolded(s, Canonicalize(s))
    ensures var r := Canonicalize(s); forall i :: 0 <= i < |r| && IsSeparator(r[i]) ==> r[i] == SeparatorOf(s)
  {
    var f, parts, sep := Read(s), Parts(s), SeparatorOf(s);
    var head := FrontIs(s);
    CanonicalizeStep(s);
    assert parts == Fold(Segments(f.body), true) && f.separator == sep;
    var r := Canonicalize(s);
    assert r == head + [sep] + Join(parts, [sep]);
    hide Segments, Walk, Fold, Join, AnyHidden, Canonicalize, Read, IsDrive, Parts;
    SegmentsBehind(head, sep, parts);
    OneSeparator(head, parts, sep);
    BodyBehind(s, head, f.body);
    FoldKeepsMeaning([], Segments(f.body), true);
    assert Segments(r)[1..] == if parts == [] then [""] else parts;
    WalkNowhere();
  }

  lemma WalkNowhere()
    ensures Walk([], [""]) == Walk([], []) == []
  {
    assert [""][..0] == [];
  }

  /** How the front and the rest of such a path are read. */
  lemma FrontIs(s: string) returns (head: string)
    requires HasFront(s)
    ensures var f := Read(s);
      && f.prefix == head + [SeparatorOf(s)] && f.separator == SeparatorOf(s) && f.rooted && IsSeparator(f.separator)
      && Plain(head) && head <= s && |head| < |s| && IsSeparator(s[|head|])
      && (f.body == s[|head|..] || f.body == s[|head| + 1..])
  {
    DriveIff(s);
    if IsDrive(s) {
      head := s[..2];
      DriveHead(s);
    } else if "/" <= s {
      head := "";
    } else {
      head := "~";
    }
  }

  /** The segments behind the front lead where those of the body lead. */
  lemma BodyBehind(s: string, head: string, body: string)
    requires Plain(head) && head <= s && |head| < |s| && IsSeparator(s[|head|])
    requires body == s[|head|..] || body == s[|head| + 1..]
    ensures Segments(s)[0] == head && Walk([], Segments(s)[1..]) == Walk([], Segments(body))
  {
    var rest := s[|head| + 1..];
    var more := s[|head|..];
    assert s == head + more && more[1..] == rest;
    HeadSegments(head, more);
    FirstSegments(more, rest);
    hide Segments, Walk;
    assert Segments(s)[1..] == Segments(more)[1..];
    WalkBehindNothing(Segments(more)[1..]);
    assert [""] + Segments(more)[1..] == Segments(more);
  }

  /** Text that begins with a separator begins with an empty segment; further separators are passed over. */
  lemma FirstSegments(more: string, rest: string)
    requires more != "" && IsSeparator(more[0]) && rest == more[1..]
    ensures Segments(more)[0] == ""
    ensures Segments(rest) == Segments(more) || Segments(rest) == Segments(more)[1..]
  {
  }

  lemma {:induction false} HeadSegments(head: string, more: string)
    requires Plain(head) && more != "" && IsSeparator(more[0])
    ensures Segments(head + more) == [head] + Segments(more)[1..]
    decreases |head|
  {
    var s := head + more;
    if head == "" {
      assert s == more;
      FirstSegments(more, more[1..]);
    } else {
      assert s[1..] == head[1..] + more;
      HeadSegments(head[1..], more);
      assert [head[0]] + head[1..] == head;
    }
  }

  lemma {:induction false} WalkBehindNothing(segments: seq<string>)
    ensures Walk([], [""] + segments) == Walk([], segments)
    decreases |segments|
  {
    if segments == [] {
      WalkNowhere();
    } else {
      var n := |segments| - 1;
      assert ([""] + segments)[..n + 1] == [""] + segments[..n];
      WalkBehindNothing(segments[..n]);
    }
  }

  /** Folding the result again changes nothing, except in exactly the cases of `Misread`: there it turns the
      spelling into another one. */
  lemma CanonicalizeTwiceIff(s: string)
    ensures Canonicalize(Canonicalize(s)) == Canonicalize(s) <==> !Misread(s)
  {
    var f, parts := Read(s), Parts(s);
    var joined := Join(parts, [f.separator]);
    PartsAreGood(s);
    var head := ReadShape(s);
    var seen := AnyHidden(Segments(s));
    MisreadMeans(s, f, parts);
    hide *;
    if !seen {
      NoHiddenNoChange(s);
    } else {
      CanonicalizeStep(s);
      if f.prefix != "" {
        TwiceRooted(head, f.separator, parts);
      } else if parts != [] {
        TwiceRelative(f.separator, parts);
      } else {
        NothingJoined(f.separator);
      }
    }
  }

  lemma CanonicalizeIsText(s: string)
    requires s != ""
    ensures Canonicalize(s) != ""
  {
    hide Segments, Fold, Join, AnyHidden;
  }

  /** The whole function applied to its own result. Where normalising leaves the result alone, it gives the same
      path again exactly when the first path was not one that is misread. */
  lemma StableSpellingIff(input: string, normalize: string -> Option<string>)
    requires normalize(input).Some? && normalize(input).value != ""
    requires var r := Canonicalize(normalize(input).value); normalize(r) == Some(r)
    ensures var r := CanonicalizeChatFilePath(input, normalize);
      r.Some? && (CanonicalizeChatFilePath(r.value, normalize) == r <==> !Misread(normalize(input).value))
  {
    CanonicalizeIsText(normalize(input).value);
    CanonicalizeTwiceIff(normalize(input).value);
    hide Canonicalize, Misread;
  }

  lemma NothingJoined(sep: char)
    ensures Join([], [sep]) == ""
  {
  }

  lemma MisreadMeans(s: string, f: Form, parts: seq<string>)
    requires f == Read(s) && parts == Parts(s)
    ensures Misread(s) <==>
      AnyHidden(Segments(s)) && AnyHidden(parts)
      && ((StartsWith(s, "/") && '\\' in s)
          || (!f.rooted && f.separator == '/' && |parts| > 1 && IsDriveName(parts[0])))
  {
  }

  lemma TwiceRooted(head: string, sep: char, parts: seq<string>)
    requires GoodParts(parts, true) && IsSeparator(sep) && Plain(head) && !IsHidden(head)
    requires head == "" || head == "~" || (IsDriveName(head) && sep == '\\')
    ensures var r := head + [sep] + Join(parts, [sep]);
      Canonicalize(r) == r <==> !(AnyHidden(parts) && head == "" && sep == '\\')
  {
    var r := head + [sep] + Join(parts, [sep]);
    assert sep == '/' || sep == '\\';
    if !AnyHidden(parts) {
      assert !AnyHidden([""]);
      hide *;
      SegmentsBehind(head, sep, parts);
      HiddenBehind(head, if parts == [] then [""] else parts);
      NoHiddenNoChange(r);
    } else {
      hide *;
      if head == "~" {
        if sep == '/' { AgainHome(parts); } else { AgainWindowsHome(parts); }
      } else if head == "" {
        if sep == '/' {
          AgainSlash(parts);
        } else {
          AgainBackslash(parts);
          assert |r| == 1 + |Join(parts, [sep])|;
        }
      } else {
        AgainDrive(head, parts);
      }
    }
  }

  lemma TwiceRelative(sep: char, parts: seq<string>)
    requires GoodParts(parts, false) && IsSeparator(sep) && parts != []
    ensures Join(parts, [sep]) != ""
    ensures var r := Join(parts, [sep]);
      Canonicalize(r) == r <==> !(AnyHidden(parts) && sep == '/' && |parts| > 1 && IsDriveName(parts[0]))
  {
    SegmentsOfJoin(parts, sep);
    assert sep == '/' || sep == '\\';
    var r := Join(parts, [sep]);
    hide *;
    if !AnyHidden(parts) {
      NoHiddenNoChange(r);
    } else if |parts| > 1 && IsDriveName(parts[0]) {
      AgainRelativeDrive(parts);
      JoinStep(parts, ['/']);
      DriveSeparators(parts[0], Join(parts[1..], ['/']), Join(parts[1..], ['\\']));
    } else {
      AgainRelative(parts, sep);
    }
  }

  lemma DriveSeparators(drive: string, a: string, b: string)
    requires IsDriveName(drive)
    ensures drive + ['/'] + a != drive + ['\\'] + b
  {
    assert (drive + ['/'] + a)[2] == '/' && (drive + ['\\'] + b)[2] == '\\';
  }

  /** One of those cases: behind a slash and a backslash, a hidden name is rooted after one pass and relative
      after two. */
  lemma RootIsLost(name: string)
    requires IsHidden(name) && Plain(name)
    ensures Canonicalize("/" + "\\" + name) == "\\" + name && Canonicalize("\\" + name) == name
  {
    var s, body, parts := "/" + "\\" + name, "\\" + name, [name];
    assert parts[0] == name && !IsHidden("");
    assert AnyHidden(parts);
    assert name[0] == '.' && IsName(name);
    assert Join(parts, ['\\']) == name;
    assert s[1..] == body && Read(s) == Form("" + ['\\'], body, true, '\\');
    EmptyHead();
    hide *;
    SegmentsBehind("", '\\', parts);
    TwoSeparators(s, body);
    HiddenBehind("", parts);
    NormalIsKept(parts, true);
    FoldBehindNothing(parts, true);
    assert body == "" + ['\\'] + name;
    Pass(s, Form("" + ['\\'], body, true, '\\'), parts);
    AgainBackslash(parts);
  }

  lemma TwoSeparators(s: string, body: string)
    requires |s| > 1 && IsSeparator(s[0]) && IsSeparator(s[1]) && body == s[1..]
    ensures Segments(s) == Segments(body)
  {
  }
}
